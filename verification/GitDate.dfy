/** Civil dates from Unix time, against the proleptic Gregorian calendar counted year by year and month by month. */
module GitDate {

  datatype Date = Date(year: int, month: int, day: int)

  // ---------------------------------------------------------------------------
  // The calendar
  // ---------------------------------------------------------------------------

  predicate IsLeap(y: int) {
    y % 4 == 0 && (y % 100 != 0 || y % 400 == 0)
  }

  function YearLength(y: int): int {
    if IsLeap(y) then 366 else 365
  }

  function MonthLength(y: int, m: int): int
    requires 1 <= m <= 12
  {
    if m == 2 then (if IsLeap(y) then 29 else 28)
    else if m == 4 || m == 6 || m == 9 || m == 11 then 30
    else 31
  }

  predicate IsDate(t: Date) {
    1 <= t.month <= 12 && 1 <= t.day <= MonthLength(t.year, t.month)
  }

  /** Days from the first day of 1970 to the first day of a year. */
  function YearStart(y: int): int
    decreases if y < 1970 then 1970 - y else y - 1970
  {
    if y == 1970 then 0
    else if y > 1970 then YearStart(y - 1) + YearLength(y - 1)
    else YearStart(y + 1) - YearLength(y)
  }

  /** Days in a year before a month. */
  function MonthStart(y: int, m: int): int
    requires 1 <= m <= 12
    decreases m
  {
    if m == 1 then 0 else MonthStart(y, m - 1) + MonthLength(y, m - 1)
  }

  /** The day number of a date, day 0 being the first day of 1970. */
  function DayNumber(t: Date): int
    requires IsDate(t)
  {
    YearStart(t.year) + MonthStart(t.year, t.month) + t.day - 1
  }

  function NextDate(t: Date): Date
    requires IsDate(t)
  {
    if t.day < MonthLength(t.year, t.month) then t.(day := t.day + 1)
    else if t.month < 12 then Date(t.year, t.month + 1, 1)
    else Date(t.year + 1, 1, 1)
  }

  // ---------------------------------------------------------------------------
  // The algorithm
  // ---------------------------------------------------------------------------

  /** Year of a 400-year era that starts in March, from the day in the era. */
  function YearOfEra(doe: int): int {
    (doe - doe / 1460 + doe / 36524 - doe / 146096) / 365
  }

  function CivilFromDays(days: int): Date {
    var z := days + 719468;
    var era := z / 146097;
    var doe := z % 146097;
    var yoe := YearOfEra(doe);
    var y := yoe + era * 400;
    var doy := doe - (365 * yoe + yoe / 4 - yoe / 100);
    var mp := (5 * doy + 2) / 153;
    var d := doy - (153 * mp + 2) / 5 + 1;
    var m := if mp < 10 then mp + 3 else mp - 9;
    Date(if m <= 2 then y + 1 else y, m, d)
  }

  // ---------------------------------------------------------------------------
  // Years from March
  // ---------------------------------------------------------------------------

  /** Days from 1 March of year 0 to 1 March of a year. */
  function MarchStart(y: int): int {
    365 * y + y / 4 - y / 100 + y / 400
  }

  /** A century of 36524 days, four-year spans of 1461 inside it: the estimate never misses the year. */
  lemma YearOfEraInCentury(c: int, a: int, b: int)
    requires 0 <= c <= 3 && 0 <= a <= 24 && 0 <= b <= 1460 && (a == 24 ==> b < 1460)
    ensures var doe := 36524 * c + 1461 * a + b;
            YearOfEra(doe) == 100 * c + 4 * a + if b < 1460 then b / 365 else 3
  {
    var doe := 36524 * c + 1461 * a + b;
    var e := if 24 * c + a + b >= 1460 then 1 else 0;
    assert doe / 1460 == 25 * c + a + e by {
      assert doe == 1460 * (25 * c + a) + (24 * c + a + b);
    }
    assert doe / 36524 == c;
    assert doe / 146096 == 0;
    var num := 36500 * c + 1460 * a + (b - e);
    assert doe - doe / 1460 + doe / 36524 - doe / 146096 == num;
    assert b - e >= 0;
    var k := (b - e) / 365;
    assert num == 365 * (100 * c + 4 * a + k) + (b - e - 365 * k);
    assert k == if b < 1460 then b / 365 else 3;
  }

  lemma MarchStartAt(c: int, a: int, j: int)
    requires 0 <= c <= 3 && 0 <= a <= 24 && 0 <= j <= 3
    ensures MarchStart(100 * c + 4 * a + j) == 36524 * c + 1461 * a + 365 * j
  {
    var y := 100 * c + 4 * a + j;
    assert y / 4 == 25 * c + a;
    assert y / 100 == c;
    assert y / 400 == 0;
  }

  lemma MarchStartCentury(c: int)
    requires 0 <= c <= 4
    ensures MarchStart(100 * c) == 36524 * c + if c == 4 then 1 else 0
  {
  }

  /** The year of the era brackets the day. */
  lemma YearOfEraBrackets(doe: int)
    requires 0 <= doe < 146097
    ensures 0 <= YearOfEra(doe) < 400
    ensures MarchStart(YearOfEra(doe)) <= doe < MarchStart(YearOfEra(doe) + 1)
  {
    if doe == 146096 {
      assert YearOfEra(doe) == 399;
    } else {
      var c := doe / 36524;
      var a, b := doe % 36524 / 1461, doe % 36524 % 1461;
      assert doe == 36524 * c + 1461 * a + b;
      YearOfEraInCentury(c, a, b);
      var j := if b < 1460 then b / 365 else 3;
      hide *;
      MarchStartAt(c, a, j);
      if j < 3 {
        MarchStartAt(c, a, j + 1);
      } else if a < 24 {
        MarchStartAt(c, a + 1, 0);
      } else {
        MarchStartCentury(c + 1);
      }
    }
  }

  /** Months from March: their first days, and the month a day of the year is in. */
  function MonthOffset(mp: int): int {
    (153 * mp + 2) / 5
  }

  lemma MonthBrackets(doy: int)
    requires 0 <= doy <= 365
    ensures var mp := (5 * doy + 2) / 153;
            0 <= mp <= 11 && MonthOffset(mp) <= doy && (mp < 11 ==> doy < MonthOffset(mp + 1))
  {
  }

  lemma MonthOffsets()
    ensures MonthOffset(0) == 0 && MonthOffset(1) == 31 && MonthOffset(2) == 61 && MonthOffset(3) == 92
    ensures MonthOffset(4) == 122 && MonthOffset(5) == 153 && MonthOffset(6) == 184 && MonthOffset(7) == 214
    ensures MonthOffset(8) == 245 && MonthOffset(9) == 275 && MonthOffset(10) == 306 && MonthOffset(11) == 337
  {
  }

  // ---------------------------------------------------------------------------
  // March years and calendar years
  // ---------------------------------------------------------------------------

  /** Centuries and leap days repeat every 400 years. */
  lemma MarchStartEra(y: int, era: int)
    ensures MarchStart(y + 400 * era) == MarchStart(y) + 146097 * era
  {
    assert (y + 400 * era) / 4 == y / 4 + 100 * era;
    assert (y + 400 * era) / 100 == y / 100 + 4 * era;
    assert (y + 400 * era) / 400 == y / 400 + era;
  }

  /** A March year has the length of the calendar year it ends in. */
  lemma MarchYearLength(y: int)
    ensures MarchStart(y + 1) - MarchStart(y) == YearLength(y + 1)
  {
    NextQuotient(y, 4);
    NextQuotient(y, 100);
    NextQuotient(y, 400);
  }

  lemma NextQuotient(y: int, k: int)
    requires k == 4 || k == 100 || k == 400
    ensures (y + 1) / k == y / k + if (y + 1) % k == 0 then 1 else 0
  {
  }

  /** The first of March in calendar days. */
  lemma {:induction false} YearStartFromMarch(y: int)
    ensures YearStart(y) == MarchStart(y - 1) + 306 - 719468
    decreases if y < 1970 then 1970 - y else y - 1970
  {
    if y > 1970 {
      YearStartFromMarch(y - 1);
      MarchYearLength(y - 2);
    } else if y < 1970 {
      YearStartFromMarch(y + 1);
      MarchYearLength(y - 1);
    }
  }

  lemma MonthStarts(y: int)
    ensures var leap := if IsLeap(y) then 1 else 0;
            && MonthStart(y, 1) == 0 && MonthStart(y, 2) == 31 && MonthStart(y, 3) == 59 + leap
            && MonthStart(y, 4) == 90 + leap && MonthStart(y, 5) == 120 + leap && MonthStart(y, 6) == 151 + leap
            && MonthStart(y, 7) == 181 + leap && MonthStart(y, 8) == 212 + leap && MonthStart(y, 9) == 243 + leap
            && MonthStart(y, 10) == 273 + leap && MonthStart(y, 11) == 304 + leap && MonthStart(y, 12) == 334 + leap
  {
    assert MonthStart(y, 2) == MonthStart(y, 1) + 31;
    assert MonthStart(y, 3) == MonthStart(y, 2) + MonthLength(y, 2);
    assert MonthStart(y, 4) == MonthStart(y, 3) + 31;
    assert MonthStart(y, 5) == MonthStart(y, 4) + 30;
    assert MonthStart(y, 6) == MonthStart(y, 5) + 31;
    assert MonthStart(y, 7) == MonthStart(y, 6) + 30;
    assert MonthStart(y, 8) == MonthStart(y, 7) + 31;
    assert MonthStart(y, 9) == MonthStart(y, 8) + 31;
    assert MonthStart(y, 10) == MonthStart(y, 9) + 30;
    assert MonthStart(y, 11) == MonthStart(y, 10) + 31;
    assert MonthStart(y, 12) == MonthStart(y, 11) + 30;
  }

  /** A day `doy` days into a March year is a valid date with the right number. */
  lemma DateInMarchYear(y: int, doy: int)
    requires 0 <= doy < YearLength(y + 1)
    ensures var mp := (5 * doy + 2) / 153;
            var m := if mp < 10 then mp + 3 else mp - 9;
            var t := Date(if m <= 2 then y + 1 else y, m, doy - MonthOffset(mp) + 1);
            IsDate(t) && DayNumber(t) == MarchStart(y) + doy - 719468
  {
    var mp := (5 * doy + 2) / 153;
    MonthBrackets(doy);
    MonthOffsets();
    MonthStarts(y);
    MonthStarts(y + 1);
    YearStartFromMarch(y);
    YearStartFromMarch(y + 1);
    MarchYearLength(y - 1);
    hide MarchStart;
    hide YearStart;
    hide MonthStart;
    hide MonthOffset;
    hide IsLeap;
  }

  // ---------------------------------------------------------------------------
  // Main results
  // ---------------------------------------------------------------------------

  /** The day inside its March year. */
  lemma DayOfEra(doe: int)
    requires 0 <= doe < 146097
    ensures var yoe := YearOfEra(doe);
            var doy := doe - (365 * yoe + yoe / 4 - yoe / 100);
            0 <= doy < YearLength(yoe + 1) && doy == doe - MarchStart(yoe)
  {
    YearOfEraBrackets(doe);
    MarchYearLength(YearOfEra(doe));
    assert YearOfEra(doe) / 400 == 0;
    hide YearOfEra;
    hide YearLength;
  }

  /** For every day before or after 1970 the algorithm gives a valid date, and the date's own day count is that day. */
  lemma CivilCountsBack(days: int)
    ensures IsDate(CivilFromDays(days)) && DayNumber(CivilFromDays(days)) == days
  {
    hide *;
    var z := days + 719468;
    var era, doe := z / 146097, z % 146097;
    var yoe := YearOfEra(doe);
    DayOfEra(doe);
    MarchStartEra(yoe, era);
    LeapEra(yoe + 1, era);
    DateInMarchYear(yoe + era * 400, doe - MarchStart(yoe));
    CivilUnfolds(days);
  }

  lemma CivilUnfolds(days: int)
    ensures var doe, era := (days + 719468) % 146097, (days + 719468) / 146097;
            var yoe := YearOfEra(doe);
            var doy := doe - (365 * yoe + yoe / 4 - yoe / 100);
            var mp := (5 * doy + 2) / 153;
            var m := if mp < 10 then mp + 3 else mp - 9;
            var y := yoe + era * 400;
            CivilFromDays(days) == Date(if m <= 2 then y + 1 else y, m, doy - MonthOffset(mp) + 1)
  {
    hide YearOfEra;
  }

  lemma LeapEra(y: int, era: int)
    ensures YearLength(y + 400 * era) == YearLength(y)
  {
    SameRemainder(y, 100 * era, 4);
    SameRemainder(y, 4 * era, 100);
    SameRemainder(y, era, 400);
  }

  lemma SameRemainder(y: int, n: int, k: int)
    requires k == 4 || k == 100 || k == 400
    ensures (y + k * n) % k == y % k
  {
    if k == 4 {
      assert (y + 4 * n) / 4 == y / 4 + n;
    } else if k == 100 {
      assert (y + 100 * n) / 100 == y / 100 + n;
    } else {
      assert (y + 400 * n) / 400 == y / 400 + n;
    }
  }

  /** The next date is a valid date numbered one more. */
  lemma NextDateCounts(t: Date)
    requires IsDate(t)
    ensures IsDate(NextDate(t)) && DayNumber(NextDate(t)) == DayNumber(t) + 1
  {
    if t.day == MonthLength(t.year, t.month) && t.month == 12 {
      MonthStarts(t.year);
      YearStep(t.year);
    }
    hide YearStart;
  }

  lemma YearStep(y: int)
    ensures YearStart(y + 1) == YearStart(y) + YearLength(y)
  {
  }

  lemma WithinYear(t: Date)
    requires IsDate(t)
    ensures YearStart(t.year) <= DayNumber(t) < YearStart(t.year) + YearLength(t.year)
  {
    MonthStarts(t.year);
    hide YearStart;
    hide IsLeap;
  }

  lemma {:induction false} YearsIncrease(y: int, z: int)
    requires y <= z
    ensures YearStart(y) <= YearStart(z)
    decreases z - y
  {
    if y < z {
      YearStep(z - 1);
      YearsIncrease(y, z - 1);
    }
  }

  /** Different dates have different numbers. */
  lemma DayNumberInjective(s: Date, t: Date)
    requires IsDate(s) && IsDate(t) && DayNumber(s) == DayNumber(t)
    ensures s == t
  {
    hide YearStart;
    hide IsLeap;
    WithinYear(s);
    WithinYear(t);
    if s.year < t.year {
      YearStep(s.year);
      YearsIncrease(s.year + 1, t.year);
    } else if t.year < s.year {
      YearStep(t.year);
      YearsIncrease(t.year + 1, s.year);
    }
    MonthStarts(s.year);
  }

  /** The algorithm inverts the day count on every valid date. */
  lemma CivilInvertsDayNumber(t: Date)
    requires IsDate(t)
    ensures CivilFromDays(DayNumber(t)) == t
  {
    CivilCountsBack(DayNumber(t));
    hide *;
    DayNumberInjective(CivilFromDays(DayNumber(t)), t);
  }

  /** Consecutive days have consecutive dates. */
  lemma ConsecutiveDays(days: int)
    ensures IsDate(CivilFromDays(days)) && CivilFromDays(days + 1) == NextDate(CivilFromDays(days))
  {
    hide *;
    CivilCountsBack(days);
    CivilCountsBack(days + 1);
    NextDateCounts(CivilFromDays(days));
    DayNumberInjective(CivilFromDays(days + 1), NextDate(CivilFromDays(days)));
  }

  // ---------------------------------------------------------------------------
  // Times
  // ---------------------------------------------------------------------------

  const WEEKDAYS: seq<string> := ["Thu", "Fri", "Sat", "Sun", "Mon", "Tue", "Wed"]
  const MONTHS: seq<string> := ["Jan", "Feb", "Mar", "Apr", "May", "Jun", "Jul", "Aug", "Sep", "Oct", "Nov", "Dec"]

  datatype Civil = Civil(date: Date, hour: int, minute: int, second: int, weekday: int)

  /** Local time: the second with the zone's minutes added. */
  function CivilAt(secs: int, offset: int): Civil {
    var local := secs + offset * 60;
    var days, rem := local / 86400, local % 86400;
    Civil(CivilFromDays(days), rem / 3600, rem % 3600 / 60, rem % 60, days % 7)
  }

  /** A civil time says which second it is, its weekday is the day's in the week of day 0, and both tables are indexed in range. */
  lemma CivilSaysTheSecond(secs: int, offset: int)
    ensures var c := CivilAt(secs, offset);
            && IsDate(c.date) && 0 <= c.hour < 24 && 0 <= c.minute < 60 && 0 <= c.second < 60
            && DayNumber(c.date) * 86400 + c.hour * 3600 + c.minute * 60 + c.second == secs + offset * 60
            && 0 <= c.weekday < |WEEKDAYS| && 0 <= c.date.month - 1 < |MONTHS|
            && c.weekday == DayNumber(c.date) % 7
  {
    var local := secs + offset * 60;
    CivilCountsBack(local / 86400);
    hide CivilFromDays;
    hide DayNumber;
    var rem := local % 86400;
    assert rem == rem / 3600 * 3600 + rem % 3600;
    assert rem % 3600 == rem % 3600 / 60 * 60 + rem % 3600 % 60;
    assert rem == 3600 * (rem / 3600) + rem % 3600 && 3600 * (rem / 3600) == 60 * (60 * (rem / 3600));
    SixtyInHour(rem / 3600, rem % 3600);
  }

  lemma SixtyInHour(h: int, r: int)
    requires 0 <= r < 3600
    ensures (3600 * h + r) % 60 == r % 60
  {
    assert 3600 * h + r == 60 * (60 * h + r / 60) + r % 60;
  }

  // ---------------------------------------------------------------------------
  // 64-bit arithmetic
  // ---------------------------------------------------------------------------

  predicate IsI64(n: int) {
    -0x8000_0000_0000_0000 <= n <= 0x7FFF_FFFF_FFFF_FFFF
  }

  /** Every number the algorithm computes from the shifted day, the era, the day of the era and its year. */
  function Steps(z: int, era: int, doe: int, yoe: int): seq<int> {
    var sum := doe - doe / 1460;
    var y := yoe + era * 400;
    var before := 365 * yoe + yoe / 4;
    var doy := doe - (before - yoe / 100);
    var mp := (5 * doy + 2) / 153;
    [z, era, doe, doe / 1460, doe / 36524, doe / 146096, sum, sum + doe / 36524, sum + doe / 36524 - doe / 146096, yoe,
     era * 400, y, 365 * yoe, yoe / 4, yoe / 100, before, before - yoe / 100, doy,
     5 * doy, 5 * doy + 2, mp, 153 * mp, 153 * mp + 2, (153 * mp + 2) / 5, doy - (153 * mp + 2) / 5,
     doy - (153 * mp + 2) / 5 + 1, mp + 3, mp - 9, y + 1]
  }

  function Intermediates(days: int): seq<int> {
    var z := days + 719468;
    Steps(z, z / 146097, z % 146097, YearOfEra(z % 146097))
  }

  lemma StepsFit(z: int, era: int, doe: int, yoe: int)
    requires IsI64(z) && IsI64(era) && -0x8000_0000_0000_0000 + 1000 <= era * 400 <= 0x7FFF_FFFF_FFFF_FFFF - 1000
    requires 0 <= doe < 146097 && 0 <= yoe < 400 && 0 <= doe - (365 * yoe + yoe / 4 - yoe / 100) <= 365
    ensures forall i :: 0 <= i < |Steps(z, era, doe, yoe)| ==> IsI64(Steps(z, era, doe, yoe)[i])
  {
    MonthBrackets(doe - (365 * yoe + yoe / 4 - yoe / 100));
  }

  /**
   * The documented range is too wide at one end: the arithmetic stays within 64 bits exactly for
   * days that can be shifted to the March epoch.
   */
  lemma FitsI64Exactly(days: int)
    requires IsI64(days)
    ensures (forall i :: 0 <= i < |Intermediates(days)| ==> IsI64(Intermediates(days)[i]))
            <==> days <= 0x7FFF_FFFF_FFFF_FFFF - 719468
  {
    var z := days + 719468;
    assert Intermediates(days)[0] == z;
    if days <= 0x7FFF_FFFF_FFFF_FFFF - 719468 {
      var doe := z % 146097;
      YearOfEraBrackets(doe);
      DayOfEra(doe);
      EraIsSmall(z);
      hide YearOfEra;
      hide MarchStart;
      hide Steps;
      StepsFit(z, z / 146097, doe, YearOfEra(doe));
    }
  }

  lemma EraIsSmall(z: int)
    requires -0x8000_0000_0000_0000 <= z <= 0x7FFF_FFFF_FFFF_FFFF
    ensures -0x8000_0000_0000_0000 + 1000 <= z / 146097 * 400 <= 0x7FFF_FFFF_FFFF_FFFF - 1000
    ensures IsI64(z / 146097)
  {
  }

  /** The largest day number, which the documentation covers, does not fit. */
  lemma LastDayDoesNotFit()
    ensures IsI64(0x7FFF_FFFF_FFFF_FFFF)
    ensures exists i :: 0 <= i < |Intermediates(0x7FFF_FFFF_FFFF_FFFF)| && !IsI64(Intermediates(0x7FFF_FFFF_FFFF_FFFF)[i])
  {
    FitsI64Exactly(0x7FFF_FFFF_FFFF_FFFF);
  }

  /** A time whose shifted value fits 64 bits has a day the arithmetic fits. */
  lemma ShiftedTimeFits(secs: int, offset: int)
    requires IsI64(secs + offset * 60)
    ensures var days := (secs + offset * 60) / 86400;
            IsI64(days) && forall i :: 0 <= i < |Intermediates(days)| ==> IsI64(Intermediates(days)[i])
  {
    var days := (secs + offset * 60) / 86400;
    FitsI64Exactly(days);
  }

  // ---------------------------------------------------------------------------
  // Relative dates
  // ---------------------------------------------------------------------------

  const MINUTE: int := 60
  const HOUR: int := 3600
  const DAY: int := 86400
  const WEEK: int := 604800
  const MONTH: int := 2629800
  const YEAR: int := 31557600

  datatype Unit = Seconds | Minutes | Hours | Days | Weeks | Months | Years

  function UnitLength(u: Unit): int {
    match u
    case Seconds => 1
    case Minutes => MINUTE
    case Hours => HOUR
    case Days => DAY
    case Weeks => WEEK
    case Months => MONTH
    case Years => YEAR
  }

  datatype Phrase = InTheFuture | Ago(n: int, unit: Unit) | YearsAndMonthsAgo(years: int, months: int)

  function Relative(secs: int, now: int): Phrase {
    var d := now - secs;
    if d < 0 then InTheFuture
    else if d < MINUTE then Ago(d, Seconds)
    else if d < HOUR then Ago(d / MINUTE, Minutes)
    else if d < DAY then Ago(d / HOUR, Hours)
    else if d < WEEK then Ago(d / DAY, Days)
    else if d < 10 * WEEK then Ago(d / WEEK, Weeks)
    else if d < YEAR then Ago(d / MONTH, Months)
    else
      var years, months := d / YEAR, d % YEAR / MONTH;
      if months == 0 then Ago(years, Years) else YearsAndMonthsAgo(years, months)
  }

  /** The span a phrase names, and the size of its smallest unit. */
  function Named(p: Phrase): (int, int)
    requires !p.InTheFuture?
  {
    if p.Ago? then (p.n * UnitLength(p.unit), if p.unit == Years then MONTH else UnitLength(p.unit))
    else (p.years * YEAR + p.months * MONTH, MONTH)
  }

  /** `n` whole units of a length, and less than one more. */
  predicate Counts(d: int, n: int, length: int) {
    n * length <= d < (n + 1) * length
  }

  /**
   * A phrase names the past's age rounded down to its smallest unit, and each unit up to where the next begins: seconds and
   * minutes below 60, hours below 24, days below 7, weeks below 10, months below 12, then years with the months left over.
   */
  lemma RelativeRoundsDown(secs: int, now: int)
    ensures var p := Relative(secs, now);
            && (p.InTheFuture? <==> now < secs)
            && (!p.InTheFuture? ==> Named(p).0 <= now - secs < Named(p).0 + Named(p).1)
            && (p.Ago? ==> p.n >= 1 || p.unit == Seconds)
            && (p.YearsAndMonthsAgo? ==> p.years >= 1 && 1 <= p.months <= 11)
            && (p.Ago? && p.unit == Months ==> 2 <= p.n <= 11)
    ensures var p, d := Relative(secs, now), now - secs;
            && (p.Ago? && p.unit == Seconds ==> 0 <= p.n < 60 && p.n == d)
            && (p.Ago? && p.unit == Minutes ==> 1 <= p.n < 60 && Counts(d, p.n, 60))
            && (p.Ago? && p.unit == Hours ==> 1 <= p.n < 24 && Counts(d, p.n, 3600))
            && (p.Ago? && p.unit == Days ==> 1 <= p.n < 7 && Counts(d, p.n, 86400))
            && (p.Ago? && p.unit == Weeks ==> 1 <= p.n < 10 && Counts(d, p.n, 604800))
            && (p.Ago? && p.unit == Months ==> 2 <= p.n < 12 && Counts(d, p.n, 2629800))
            && (p.Ago? && p.unit == Years ==> 1 <= p.n && Counts(d, p.n, 31557600) && d - p.n * 31557600 < 2629800)
            && (p.YearsAndMonthsAgo? ==> Counts(d, p.years, 31557600) && Counts(d - p.years * 31557600, p.months, 2629800))
  {
  }

  /** Weekdays count from a Thursday, the day of the epoch. */
  lemma WeekdaysInOrder()
    ensures WEEKDAYS[0] == "Thu" && WEEKDAYS[1] == "Fri" && WEEKDAYS[2] == "Sat" && WEEKDAYS[3] == "Sun" && WEEKDAYS[4] == "Mon"
    ensures WEEKDAYS[5] == "Tue" && WEEKDAYS[6] == "Wed"
  {
  }

  lemma MonthsInOrder()
    ensures MONTHS[0] == "Jan" && MONTHS[1] == "Feb" && MONTHS[2] == "Mar" && MONTHS[3] == "Apr" && MONTHS[4] == "May"
    ensures MONTHS[5] == "Jun" && MONTHS[6] == "Jul" && MONTHS[7] == "Aug" && MONTHS[8] == "Sep" && MONTHS[9] == "Oct"
    ensures MONTHS[10] == "Nov" && MONTHS[11] == "Dec"
  {
  }
}
