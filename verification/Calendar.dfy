/**
  * Day numbers and dates of the Gregorian calendar. Day 0 is 1970-01-01.
  */
module Calendar {

  /** The division of the source language: it truncates toward zero. */
  function TruncDiv(a: int, b: int): int
    requires b > 0
  {
    if a >= 0 then a / b else -((-a) / b)
  }

  /** The remainder that goes with it has the sign of the dividend. */
  function TruncMod(a: int, b: int): int
    requires b > 0
  {
    if a >= 0 then a % b else -((-a) % b)
  }

  datatype Date = Date(year: int, month: int, day: int)

  const MAX_YEAR := 9999
  const MIN_DATE := -719528
  const MAX_DATE := 2932896

  predicate IsLeap(y: int) {
    y % 4 == 0 && (y % 100 != 0 || y % 400 == 0)
  }

  function LastMonthDay(y: int, m: int): (d: int)
    requires 1 <= m <= 12
    ensures 28 <= d <= 31
  {
    var a := [31, 28, 31, 30, 31, 30, 31, 31, 30, 31, 30, 31];
    if m != 2 || !IsLeap(y) then a[m - 1] else 29
  }

  predicate IsValid(ymd: Date) {
    && 0 <= ymd.year <= MAX_YEAR
    && 0 < ymd.month <= 12
    && 0 < ymd.day <= LastMonthDay(ymd.year, ymd.month)
  }

  function YmdToDays(ymd: Date): int
    requires IsValid(ymd)
  {
    var y := if ymd.month <= 2 then ymd.year - 1 else ymd.year;
    var m, d := ymd.month, ymd.day;
    var era := TruncDiv(if y >= 0 then y else y - 399, 400);
    var yoe := y - era * 400;
    var doy := (153 * (m + (if m > 2 then -3 else 9)) + 2) / 5 + d - 1;
    var doe := yoe * 365 + yoe / 4 - yoe / 100 + doy;
    era * 146097 + doe - 719468
  }

  function DaysToYmd(numDays: int): Date {
    var n := numDays + 719468;
    var era := TruncDiv(if n >= 0 then n else n - 146096, 146097);
    var doe := n - era * 146097;
    var yoe := YearOfEra(doe);
    var y := yoe + era * 400;
    var doy := doe - (365 * yoe + yoe / 4 - yoe / 100);
    var mp := (5 * doy + 2) / 153;
    var d := doy - (153 * mp + 2) / 5 + 1;
    var m := mp + (if mp < 10 then 3 else -9);
    Date(if m <= 2 then y + 1 else y, m, d)
  }

  function YearOfEra(doe: int): int {
    (doe - doe / 1460 + doe / 36524 - doe / 146096) / 365
  }

  // ---------- The calendar, one day at a time ----------

  function NextDay(ymd: Date): Date
    requires IsValid(ymd)
  {
    if ymd.day < LastMonthDay(ymd.year, ymd.month) then ymd.(day := ymd.day + 1)
    else if ymd.month < 12 then Date(ymd.year, ymd.month + 1, 1)
    else Date(ymd.year + 1, 1, 1)
  }

  const FIRST_DAY := Date(0, 1, 1)
  const LAST_DAY := Date(9999, 12, 31)

  // ---------- From March to February ----------

  /** The day on which the year starting in March of `y` starts. */
  function YearStart(y: int): int {
    y / 400 * 146097 + y % 400 * 365 + y % 400 / 4 - y % 400 / 100
  }

  function MonthStart(m: int): int {
    (153 * (m + (if m > 2 then -3 else 9)) + 2) / 5
  }

  lemma FloorEra(y: int)
    ensures TruncDiv(if y >= 0 then y else y - 399, 400) == y / 400
  {
  }

  lemma FloorCycle(n: int)
    ensures TruncDiv(if n >= 0 then n else n - 146096, 146097) == n / 146097
  {
  }

  lemma DaysFromStart(ymd: Date)
    requires IsValid(ymd)
    ensures var y := if ymd.month <= 2 then ymd.year - 1 else ymd.year;
            YmdToDays(ymd) == YearStart(y) + MonthStart(ymd.month) + ymd.day - 1 - 719468
  {
    FloorEra(if ymd.month <= 2 then ymd.year - 1 else ymd.year);
  }

  /** A year from March on has a day more when the next February is in a leap year. */
  lemma YearLength(y: int)
    ensures YearStart(y) - YearStart(y - 1) == if IsLeap(y) then 366 else 365
  {
    var e, r := y / 400, y % 400;
    if r == 0 {
      assert (y - 1) / 400 == e - 1 && (y - 1) % 400 == 399;
    } else {
      assert (y - 1) / 400 == e && (y - 1) % 400 == r - 1;
      Quarters(r);
    }
    LeapInEra(y);
  }

  lemma Quarters(r: int)
    requires 0 < r < 400
    ensures r / 4 - (r - 1) / 4 == if r % 4 == 0 then 1 else 0
    ensures r / 100 - (r - 1) / 100 == if r % 100 == 0 then 1 else 0
  {
  }

  lemma LeapInEra(y: int)
    ensures IsLeap(y) <==> IsLeap(y % 400)
  {
    LeapShift(y / 400, y % 400);
  }

  /** The calendar repeats every 400 years. */
  lemma LeapShift(e: int, r: int)
    ensures IsLeap(400 * e + r) <==> IsLeap(r)
  {
    By4(e, r);
    By100(e, r);
    By400(e, r);
  }

  lemma By4(e: int, r: int)
    ensures (400 * e + r) % 4 == r % 4
  {
    var k := r / 4 + 100 * e;
    assert 400 * e + r == 4 * k + r % 4;
  }

  lemma By100(e: int, r: int)
    ensures (400 * e + r) % 100 == r % 100
  {
    var k := r / 100 + 4 * e;
    assert 400 * e + r == 100 * k + r % 100;
  }

  lemma By400(e: int, r: int)
    ensures (400 * e + r) % 400 == r % 400
  {
    var k := r / 400 + e;
    assert 400 * e + r == 400 * k + r % 400;
  }

  lemma MonthLength(y: int, m: int)
    requires 1 <= m <= 12
    ensures m != 2 && m != 12 ==> MonthStart(m + 1) == MonthStart(m) + LastMonthDay(y, m)
    ensures MonthStart(1) == MonthStart(12) + 31 && MonthStart(3) == 0
    ensures MonthStart(2) + LastMonthDay(y, 2) == if IsLeap(y) then 366 else 365
  {
    hide IsLeap;
    assert MonthStart(1) == 306 && MonthStart(2) == 337 && MonthStart(12) == 275;
  }

  /** The day number goes up by one from each date to the next. */
  lemma NextDayNumber(ymd: Date)
    requires IsValid(ymd) && ymd != LAST_DAY
    ensures IsValid(NextDay(ymd)) && YmdToDays(NextDay(ymd)) == YmdToDays(ymd) + 1
  {
    hide YearStart, MonthStart, YmdToDays;
    DaysFromStart(ymd);
    DaysFromStart(NextDay(ymd));
    MonthLength(ymd.year, ymd.month);
    YearLength(ymd.year);
  }

  // ---------- Back from the day number ----------

  lemma YearOfEraFound(c: int, q: int, r: int, doy: int)
    requires 0 <= c < 4 && 0 <= q < 25 && 0 <= r < 4
    requires 0 <= doy <= (if r == 3 && (q != 24 || c == 3) then 365 else 364)
    ensures YearOfEra(36524 * c + 1461 * q + 365 * r + doy) == 100 * c + 4 * q + r
  {
    var doe := 36524 * c + 1461 * q + 365 * r + doy;
    var e := if 24 * c + q + 365 * r + doy >= 1460 then 1 else 0;
    assert doe / 1460 == 25 * c + q + e;
    assert doe / 36524 - doe / 146096 == c;
  }

  lemma Parts(yoe: int) returns (c: int, q: int, r: int)
    requires 0 <= yoe < 400
    ensures 0 <= c < 4 && 0 <= q < 25 && 0 <= r < 4 && yoe == 100 * c + 4 * q + r
    ensures yoe * 365 + yoe / 4 - yoe / 100 == 36524 * c + 1461 * q + 365 * r
    ensures IsLeap(yoe + 1) <==> r == 3 && (q != 24 || c == 3)
  {
    c, q, r := yoe / 100, yoe % 100 / 4, yoe % 4;
  }

  lemma DateInEra(era: int, yoe: int, doy: int)
    requires var doe := yoe * 365 + yoe / 4 - yoe / 100 + doy; 0 <= doe < 146097 && YearOfEra(doe) == yoe
    ensures var doe := yoe * 365 + yoe / 4 - yoe / 100 + doy;
            var mp := (5 * doy + 2) / 153;
            var m := mp + (if mp < 10 then 3 else -9);
            DaysToYmd(era * 146097 + doe - 719468)
            == Date(400 * era + yoe + (if m <= 2 then 1 else 0), m, doy - (153 * mp + 2) / 5 + 1)
  {
    hide YearOfEra, TruncDiv;
    var n := era * 146097 + yoe * 365 + yoe / 4 - yoe / 100 + doy;
    FloorCycle(n);
    assert n / 146097 == era;
  }

  /** Every valid date is found again from its day number. */
  lemma DateComesBack(ymd: Date)
    requires IsValid(ymd)
    ensures DaysToYmd(YmdToDays(ymd)) == ymd
  {
    hide YmdToDays, DaysToYmd, YearOfEra, IsLeap, MonthStart, LastMonthDay;
    var y := if ymd.month <= 2 then ymd.year - 1 else ymd.year;
    var yoe := y % 400;
    var doy := MonthStart(ymd.month) + ymd.day - 1;
    DaysFromStart(ymd);
    DayInYear(ymd);
    LeapAfter(y);
    var c, q, r := Parts(yoe);
    YearOfEraFound(c, q, r, doy);
    DateInEra(y / 400, yoe, doy);
    MonthLimits(ymd);
    MonthFound(ymd.month, ymd.day);
  }

  lemma MonthLimits(ymd: Date)
    requires IsValid(ymd)
    ensures ymd.day <= 31 && (ymd.month == 2 ==> ymd.day <= 29) && (ymd.month in {4, 6, 9, 11} ==> ymd.day <= 30)
  {
  }

  lemma DayInYear(ymd: Date)
    requires IsValid(ymd)
    ensures var y := if ymd.month <= 2 then ymd.year - 1 else ymd.year;
            0 <= MonthStart(ymd.month) + ymd.day - 1 <= if IsLeap(y + 1) then 365 else 364
  {
    hide IsLeap;
  }

  lemma LeapAfter(y: int)
    ensures IsLeap(y + 1) <==> IsLeap(y % 400 + 1)
  {
    hide IsLeap;
    LeapShift(y / 400, y % 400 + 1);
    assert y + 1 == 400 * (y / 400) + (y % 400 + 1);
  }

  lemma MonthFound(m: int, d: int)
    requires 1 <= m <= 12 && 1 <= d <= 31 && (m == 2 ==> d <= 29) && (m in {4, 6, 9, 11} ==> d <= 30)
    ensures var doy := MonthStart(m) + d - 1;
            var mp := (5 * doy + 2) / 153;
            m == mp + (if mp < 10 then 3 else -9) && d == doy - (153 * mp + 2) / 5 + 1
  {
  }

  // ---------- Every day in range has its date ----------

  /** The date `k` days after the first of January in year 0. */
  function DateAfter(k: nat): (ymd: Date)
    requires MIN_DATE + k <= MAX_DATE
    ensures IsValid(ymd) && YmdToDays(ymd) == MIN_DATE + k
  {
    if k == 0 then FIRST_DAY
    else
      var before := DateAfter(k - 1);
      assert before != LAST_DAY by { LastDayNumber(); }
      assert IsValid(NextDay(before)) && YmdToDays(NextDay(before)) == YmdToDays(before) + 1 by {
        NextDayNumber(before);
      }
      NextDay(before)
  }

  lemma LastDayNumber()
    ensures IsValid(LAST_DAY) && YmdToDays(LAST_DAY) == MAX_DATE
  {
  }

  lemma EpochIsDayZero()
    ensures YmdToDays(Date(1970, 1, 1)) == 0 && DaysToYmd(0) == Date(1970, 1, 1)
  {
    hide DaysToYmd;
    DateComesBack(Date(1970, 1, 1));
  }

  /**
    * The date printed for a day in the supported range is valid, has that day number, and is the
    * one that counting days of the calendar leads to.
    */
  lemma DayComesBack(n: int)
    requires MIN_DATE <= n <= MAX_DATE
    ensures var ymd := DaysToYmd(n); IsValid(ymd) && YmdToDays(ymd) == n && ymd == DateAfter(n - MIN_DATE)
  {
    hide DaysToYmd, YmdToDays, IsValid;
    DateComesBack(DateAfter(n - MIN_DATE));
  }
}
