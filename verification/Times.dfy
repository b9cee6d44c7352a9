/**
  * How dates, times of day and points in time are printed. A duration or a point in time is its
  * number of microseconds, before or after zero.
  */
module Times {
  import opened Text
  import opened Calendar

  const SECOND := 1_000_000
  const MINUTE := 60_000_000
  const HOUR := 3_600_000_000
  const DAY := 86_400_000_000

  const MIN_TIME := -839 * HOUR
  const MAX_TIME := 839 * HOUR

  // ---------- What is meant to be printed ----------

  function Zeros(n: nat): (s: string)
    ensures |s| == n && AllDigits(s)
  {
    seq(n, _ => '0')
  }

  /** `%0wu`. */
  function Padded(n: nat, w: nat): (s: string)
    ensures s != "" && AllDigits(s)
  {
    var digits := Digits(n);
    if |digits| < w then Zeros(w - |digits|) + digits else digits
  }

  /** A sign in front of the parts of the magnitude. */
  function TimeText(t: int): string {
    var magnitude: nat := if t < 0 then -t else t;
    (if t < 0 then "-" else "")
    + Padded(magnitude / HOUR, 2)
    + Clock(magnitude % HOUR / MINUTE, magnitude % MINUTE / SECOND, magnitude % SECOND)
  }

  function Clock(minutes: nat, seconds: nat, micros: nat): string {
    ":" + Padded(minutes, 2) + ":" + Padded(seconds, 2) + "." + Padded(micros, 6)
  }

  function DateText(d: int): string
    requires MIN_DATE <= d <= MAX_DATE
  {
    var ymd := DateAfter(d - MIN_DATE);
    Padded(ymd.year, 4) + "-" + Padded(ymd.month, 2) + "-" + Padded(ymd.day, 2)
  }

  /** The day that holds the point in time, and the time since its midnight. */
  function DatetimeText(t: int): string
    requires MIN_DATE <= t / DAY <= MAX_DATE
  {
    DateText(t / DAY) + " " + TimeText(t % DAY)
  }

  // ---------- The breakdown by truncating divisions ----------

  function Micros(t: int): int { TruncMod(t, SECOND) }

  function Seconds(t: int): int { TruncDiv(TruncMod(t, MINUTE) - Micros(t), SECOND) }

  function Minutes(t: int): int { TruncDiv(TruncMod(t, HOUR) - Seconds(t) * SECOND, MINUTE) }

  function Hours(t: int): int { TruncDiv(t - Minutes(t) * MINUTE, HOUR) }

  function Abs(n: int): (r: nat) {
    if n < 0 then -n else n
  }

  lemma DropFromSecond(a: int, x: int)
    requires 0 <= x <= a % SECOND
    ensures (a - x) / SECOND == a / SECOND
  {
  }

  lemma DropFromMinute(a: int, x: int)
    requires 0 <= x <= a % MINUTE
    ensures (a - x) / MINUTE == a / MINUTE
  {
  }

  lemma DropFromHour(a: int, x: int)
    requires 0 <= x <= a % HOUR
    ensures (a - x) / HOUR == a / HOUR
  {
  }

  lemma SecondsOfPositive(t: int)
    requires t >= 0
    ensures Seconds(t) == t % MINUTE / SECOND && 0 <= Seconds(t) * SECOND <= t % MINUTE
  {
    NestedRemainders(t);
    DropFromSecond(t % MINUTE, t % SECOND);
  }

  lemma MinutesOfPositive(t: int)
    requires t >= 0
    ensures Minutes(t) == t % HOUR / MINUTE && 0 <= Minutes(t) * MINUTE <= t % HOUR
  {
    hide Seconds;
    SecondsOfPositive(t);
    NestedRemainders(t);
    DropFromMinute(t % HOUR, Seconds(t) * SECOND);
    WholeMinutes(t % HOUR);
  }

  lemma WholeMinutes(a: nat)
    ensures 0 <= a / MINUTE * MINUTE <= a
  {
  }

  /** Dropping smaller parts before dividing changes nothing. */
  lemma PartsOfPositive(t: int)
    requires t >= 0
    ensures Micros(t) == t % SECOND && Seconds(t) == t % MINUTE / SECOND
    ensures Minutes(t) == t % HOUR / MINUTE && Hours(t) == t / HOUR
  {
    hide Seconds, Minutes;
    SecondsOfPositive(t);
    MinutesOfPositive(t);
    DropFromHour(t, Minutes(t) * MINUTE);
  }

  lemma PartsMirror(t: int)
    requires t >= 0
    ensures Micros(-t) == -Micros(t) && Seconds(-t) == -Seconds(t)
    ensures Minutes(-t) == -Minutes(t) && Hours(-t) == -Hours(t)
  {
  }

  /** The parts have the sign of the duration, stay below their limits, and add up to it. */
  lemma PartsRebuild(t: int)
    ensures Abs(Micros(t)) < 1_000_000 && Abs(Seconds(t)) < 60 && Abs(Minutes(t)) < 60
    ensures t == Hours(t) * 3_600_000_000 + Minutes(t) * 60_000_000 + Seconds(t) * 1_000_000 + Micros(t)
    ensures Abs(t) == Abs(Hours(t)) * 3_600_000_000 + Abs(Minutes(t)) * 60_000_000
                      + Abs(Seconds(t)) * 1_000_000 + Abs(Micros(t))
  {
    hide Micros, Seconds, Minutes, Hours;
    PartsOfPositive(Abs(t));
    PartsMirror(Abs(t));
    Rebuild(Abs(t));
  }

  lemma Rebuild(t: nat)
    ensures t == t / HOUR * HOUR + t % HOUR / MINUTE * MINUTE + t % MINUTE / SECOND * SECOND + t % SECOND
    ensures t % HOUR / MINUTE < 60 && t % MINUTE / SECOND < 60
  {
    var h, m := t % HOUR, t % MINUTE;
    assert t == t / HOUR * HOUR + h && h == h / MINUTE * MINUTE + h % MINUTE && m == m / SECOND * SECOND + m % SECOND;
    NestedRemainders(t);
  }

  lemma NestedRemainders(t: nat)
    ensures t % HOUR % MINUTE == t % MINUTE && t % MINUTE % SECOND == t % SECOND
  {
    MinuteOfHour(t);
    SecondOfMinute(t);
  }

  lemma MinuteOfHour(t: nat)
    ensures t % HOUR % MINUTE == t % MINUTE
  {
    var h := t % HOUR;
    MinuteRemainder(t, 60 * (t / HOUR) + h / MINUTE, h % MINUTE);
  }

  lemma MinuteRemainder(t: nat, q: nat, r: nat)
    requires r < MINUTE && t == MINUTE * q + r
    ensures t % MINUTE == r
  {
  }

  lemma SecondOfMinute(t: nat)
    ensures t % MINUTE % SECOND == t % SECOND
  {
    var m := t % MINUTE;
    SecondRemainder(t, 60 * (t / MINUTE) + m / SECOND, m % SECOND);
  }

  lemma SecondRemainder(t: nat, q: nat, r: nat)
    requires r < SECOND && t == SECOND * q + r
    ensures t % SECOND == r
  {
  }

  lemma PartsOfText(t: int)
    ensures TimeText(t) == (if t < 0 then "-" else "") + Padded(Abs(Hours(t)), 2)
                           + Clock(Abs(Minutes(t)), Abs(Seconds(t)), Abs(Micros(t)))
  {
    hide Micros, Seconds, Minutes, Hours, Padded, Clock;
    PartsOfPositive(Abs(t));
    PartsMirror(Abs(t));
  }

  // ---------- print_visitor ----------

  method PrintTime(os: string, value: int) returns (os': string)
    requires MIN_TIME <= value <= MAX_TIME
    ensures os' == os + TimeText(value)
  {
    hide TruncDiv, TruncMod, TimeText, Padded;
    var sign := if value < 0 then "-" else "";
    var numMicros := TruncMod(value, SECOND);
    var numSecs := TruncDiv(TruncMod(value, MINUTE) - numMicros, SECOND);
    var numMins := TruncDiv(TruncMod(value, HOUR) - numSecs * SECOND, MINUTE);
    var numHours := TruncDiv(value - numMins * MINUTE, HOUR);
    PartsOfText(value);
    var clock := ":" + Padded(Abs(numMins), 2) + ":" + Padded(Abs(numSecs), 2) + "." + Padded(Abs(numMicros), 6);
    var buffer := sign + Padded(Abs(numHours), 2) + clock;
    os' := os + buffer;
  }

  method PrintDate(os: string, value: int) returns (os': string)
    requires MIN_DATE <= value <= MAX_DATE
    ensures os' == os + DateText(value)
  {
    DayComesBack(value);
    var ymd := DaysToYmd(value);
    var buffer := Padded(ymd.year, 4) + "-" + Padded(ymd.month, 2) + "-" + Padded(ymd.day, 2);
    os' := os + buffer;
  }

  method PrintDatetime(os: string, value: int) returns (os': string)
    requires MIN_DATE * DAY <= value < (MAX_DATE + 1) * DAY
    ensures os' == os + DatetimeText(value)
  {
    hide TimeText, DateText;
    var datePart := TruncDiv(value, DAY);
    if datePart * DAY > value {
      datePart := datePart - 1;
    }
    var tod := value - datePart * DAY;
    assert datePart == value / DAY && tod == value % DAY;
    os' := PrintDate(os, datePart);
    os' := os' + " ";
    os' := PrintTime(os', tod);
  }

  // ---------- Reading a printed time back ----------

  /** The number of microseconds that the text of a time denotes. */
  function TimeOf(text: string): int {
    var negative := text != "" && text[0] == '-';
    var body := if negative then text[1..] else text;
    var split := |body| - 13;
    if split < 0 then 0
    else
      var magnitude := NumberIn(body[..split]) * HOUR + NumberIn(body[split + 1..split + 3]) * MINUTE
                       + NumberIn(body[split + 4..split + 6]) * SECOND + NumberIn(body[split + 7..]);
      if negative then -magnitude else magnitude
  }

  function NumberIn(s: string): nat {
    if forall i | 0 <= i < |s| :: IsDigit(s[i]) then NumberOf(s) else 0
  }

  lemma {:induction false} NumberWithZeros(z: nat, s: string)
    requires AllDigits(s)
    ensures NumberOf(Zeros(z) + s) == NumberOf(s)
    decreases z + |s|
  {
    var t := Zeros(z) + s;
    if s != "" {
      assert t[..|t| - 1] == Zeros(z) + s[..|s| - 1];
      NumberWithZeros(z, s[..|s| - 1]);
    } else if z > 0 {
      assert t[..|t| - 1] == Zeros(z - 1) + s;
      NumberWithZeros(z - 1, s);
    }
  }

  lemma NumberOfPadded(n: nat, w: nat)
    ensures NumberIn(Padded(n, w)) == n
  {
    NumberOfDigits(n);
    if |Digits(n)| < w {
      NumberWithZeros(w - |Digits(n)|, Digits(n));
    }
  }

  lemma {:induction false} DigitCount(n: nat, w: nat)
    requires w > 0 && n < Power10(w)
    ensures |Digits(n)| <= w
  {
    if w > 1 && n >= 10 {
      DigitCount(n / 10, w - 1);
    }
  }

  lemma PaddedWidth(n: nat, w: nat)
    requires w > 0 && n < Power10(w)
    ensures |Padded(n, w)| == w
  {
    DigitCount(n, w);
  }

  lemma ClockReads(h: nat, minutes: nat, seconds: nat, micros: nat)
    requires minutes < 60 && seconds < 60 && micros < 1_000_000
    ensures var body := Padded(h, 2) + Clock(minutes, seconds, micros);
            var split := |body| - 13;
            && split >= 0
            && NumberIn(body[..split]) == h
            && NumberIn(body[split + 1..split + 3]) == minutes
            && NumberIn(body[split + 4..split + 6]) == seconds
            && NumberIn(body[split + 7..]) == micros
  {
    hide Padded, NumberIn;
    NumberOfPadded(h, 2);
    NumberOfPadded(minutes, 2);
    NumberOfPadded(seconds, 2);
    NumberOfPadded(micros, 6);
    assert Power10(2) == 100 && Power10(6) == 1_000_000;
    PaddedWidth(minutes, 2);
    PaddedWidth(seconds, 2);
    PaddedWidth(micros, 6);
    var body := Padded(h, 2) + Clock(minutes, seconds, micros);
    var split := |body| - 13;
    assert body[..split] == Padded(h, 2);
    assert body[split + 1..split + 3] == Padded(minutes, 2);
    assert body[split + 4..split + 6] == Padded(seconds, 2);
    assert body[split + 7..] == Padded(micros, 6);
  }

  /** What a sign, hours and a clock denote. */
  lemma SignedReads(negative: bool, h: nat, minutes: nat, seconds: nat, micros: nat)
    requires minutes < 60 && seconds < 60 && micros < 1_000_000
    ensures var text := (if negative then "-" else "") + Padded(h, 2) + Clock(minutes, seconds, micros);
            var magnitude := h * HOUR + minutes * MINUTE + seconds * SECOND + micros;
            TimeOf(text) == if negative then -magnitude else magnitude
  {
    hide Padded, NumberIn, Clock;
    ClockReads(h, minutes, seconds, micros);
    var body := Padded(h, 2) + Clock(minutes, seconds, micros);
    var text := (if negative then "-" else "") + Padded(h, 2) + Clock(minutes, seconds, micros);
    assert body[0] == Padded(h, 2)[0] != '-';
    if negative {
      assert text == "-" + body && text[1..] == body;
    } else {
      assert text == body;
    }
  }

  /** A printed time denotes the duration it was printed for, before zero as well. */
  lemma TimeComesBack(t: int)
    ensures TimeOf(TimeText(t)) == t
  {
    hide Padded, NumberIn, Clock, TimeOf;
    var m: nat := Abs(t);
    Rebuild(m);
    SignedReads(t < 0, m / HOUR, m % HOUR / MINUTE, m % MINUTE / SECOND, m % SECOND);
  }

  // ---------- Reading a printed point in time back ----------

  function DateOf(text: string): Date
    requires |text| == 10
  {
    Date(NumberIn(text[..4]), NumberIn(text[5..7]), NumberIn(text[8..]))
  }

  function DatetimeOf(text: string): int
    requires |text| > 11 && IsValid(DateOf(text[..10]))
  {
    YmdToDays(DateOf(text[..10])) * DAY + TimeOf(text[11..])
  }

  lemma DateTextReads(d: int)
    requires MIN_DATE <= d <= MAX_DATE
    ensures |DateText(d)| == 10 && DateOf(DateText(d)) == DateAfter(d - MIN_DATE)
  {
    hide Padded, NumberIn, YmdToDays, DateAfter;
    var ymd := DateAfter(d - MIN_DATE);
    NumberOfPadded(ymd.year, 4);
    NumberOfPadded(ymd.month, 2);
    NumberOfPadded(ymd.day, 2);
    assert Power10(2) == 100 && Power10(4) == 10000;
    PaddedWidth(ymd.year, 4);
    PaddedWidth(ymd.month, 2);
    PaddedWidth(ymd.day, 2);
    assert DateText(d)[..4] == Padded(ymd.year, 4);
    assert DateText(d)[5..7] == Padded(ymd.month, 2);
    assert DateText(d)[8..] == Padded(ymd.day, 2);
  }

  /** A printed point in time denotes that point, before the epoch as well; the time of day is below 24 hours. */
  lemma DatetimeComesBack(t: int)
    requires MIN_DATE * DAY <= t < (MAX_DATE + 1) * DAY
    ensures var text := DatetimeText(t);
            && |text| > 11 && IsValid(DateOf(text[..10])) && DatetimeOf(text) == t
            && 0 <= TimeOf(text[11..]) < 86_400_000_000
            && YmdToDays(DateOf(text[..10])) * 86_400_000_000 + TimeOf(text[11..]) == t
  {
    hide TimeText, TimeOf, YmdToDays, DateAfter, DateOf, DateText;
    var d := t / DAY;
    DateTextReads(d);
    TimeComesBack(t % DAY);
    TimeTextStarts(t % DAY);
    var text := DatetimeText(t);
    assert text[..10] == DateText(d) && text[11..] == TimeText(t % DAY);
  }

  lemma TimeTextStarts(t: int)
    ensures TimeText(t) != ""
  {
  }

  /** What is printed fits the buffers: 64 characters for a time, 32 for a date. */
  lemma TextFits(t: int, d: int)
    requires MIN_TIME <= t <= MAX_TIME && MIN_DATE <= d <= MAX_DATE
    ensures |TimeText(t)| < 64 && |DateText(d)| < 32
  {
    hide DateText, Padded;
    DateTextReads(d);
    var magnitude: nat := Abs(t);
    var h := magnitude / HOUR;
    assert Power10(2) == 100 && Power10(3) == 1000 && Power10(6) == 1_000_000;
    PaddedWidth(magnitude % HOUR / MINUTE, 2);
    PaddedWidth(magnitude % MINUTE / SECOND, 2);
    PaddedWidth(magnitude % SECOND, 6);
    HoursWidth(h);
  }

  lemma HoursWidth(h: nat)
    requires h < 1000
    ensures |Padded(h, 2)| <= 3
  {
    assert Power10(3) == 1000;
    DigitCount(h, 3);
  }

  // ---------- The characters of printed times and dates ----------

  lemma {:induction false} NoLeadingZero(n: nat)
    requires n > 0
    ensures Digits(n)[0] != '0'
  {
    if n >= 10 {
      NoLeadingZero(n / 10);
    }
  }

  /** Two or more digits, and no zero in front of three or more. */
  lemma HoursShape(h: nat)
    ensures var s := Padded(h, 2); |s| >= 2 && (|s| > 2 ==> s[0] != '0')
  {
    if h > 0 {
      NoLeadingZero(h);
    }
  }

  /**
    * A time is printed as an optional '-', two or more digits of hours, and ':', ':' and '.' in front of
    * two, two and six digits.
    */
  lemma TimeShape(t: int)
    ensures var text := TimeText(t);
            var body := if t < 0 then text[1..] else text;
            var n := |body|;
            && text != "" && (t < 0 <==> text[0] == '-')
            && n >= 15 && (n > 15 ==> body[0] != '0')
            && body[n - 13] == ':' && body[n - 10] == ':' && body[n - 7] == '.'
            && forall i | 0 <= i < n && i != n - 13 && i != n - 10 && i != n - 7 :: IsDigit(body[i])
  {
    hide Padded, Digits, Power10;
    var m: nat := Abs(t);
    Rebuild(m);
    var h, minutes, seconds, micros := m / HOUR, m % HOUR / MINUTE, m % MINUTE / SECOND, m % SECOND;
    var body := Padded(h, 2) + Clock(minutes, seconds, micros);
    Widths(minutes, seconds, micros);
    HoursShape(h);
    ClockShape(Padded(h, 2), Padded(minutes, 2), Padded(seconds, 2), Padded(micros, 6));
    assert body == Padded(h, 2) + (":" + Padded(minutes, 2) + ":" + Padded(seconds, 2) + "." + Padded(micros, 6));
    if t < 0 {
      assert TimeText(t) == "-" + body && TimeText(t)[1..] == body;
    } else {
      assert TimeText(t) == body;
    }
  }

  lemma Widths(minutes: nat, seconds: nat, micros: nat)
    requires minutes < 60 && seconds < 60 && micros < 1_000_000
    ensures |Padded(minutes, 2)| == 2 && |Padded(seconds, 2)| == 2 && |Padded(micros, 6)| == 6
  {
    hide Padded;
    assert Power10(2) == 100 && Power10(6) == 1_000_000;
    PaddedWidth(minutes, 2);
    PaddedWidth(seconds, 2);
    PaddedWidth(micros, 6);
  }

  lemma ClockShape(h: string, minutes: string, seconds: string, micros: string)
    requires AllDigits(h) && AllDigits(minutes) && AllDigits(seconds) && AllDigits(micros)
    requires |h| >= 2 && |minutes| == 2 && |seconds| == 2 && |micros| == 6
    ensures var body := h + (":" + minutes + ":" + seconds + "." + micros);
            var n := |body|;
            && n == |h| + 13 && body[0] == h[0]
            && body[n - 13] == ':' && body[n - 10] == ':' && body[n - 7] == '.'
            && forall i | 0 <= i < n && i != n - 13 && i != n - 10 && i != n - 7 :: IsDigit(body[i])
  {
  }

  /** A date is printed as four, two and two digits with '-' between them. */
  lemma DateShape(d: int)
    requires MIN_DATE <= d <= MAX_DATE
    ensures var text := DateText(d);
            && |text| == 10 && text[4] == '-' && text[7] == '-'
            && forall i | 0 <= i < 10 && i != 4 && i != 7 :: IsDigit(text[i])
  {
    hide Padded, YmdToDays, DateAfter;
    var ymd := DateAfter(d - MIN_DATE);
    assert Power10(2) == 100 && Power10(4) == 10000;
    PaddedWidth(ymd.year, 4);
    PaddedWidth(ymd.month, 2);
    PaddedWidth(ymd.day, 2);
    DashShape(Padded(ymd.year, 4), Padded(ymd.month, 2), Padded(ymd.day, 2));
  }

  lemma DashShape(year: string, month: string, day: string)
    requires AllDigits(year) && AllDigits(month) && AllDigits(day)
    requires |year| == 4 && |month| == 2 && |day| == 2
    ensures var text := year + "-" + month + "-" + day;
            && |text| == 10 && text[4] == '-' && text[7] == '-'
            && forall i | 0 <= i < 10 && i != 4 && i != 7 :: IsDigit(text[i])
  {
  }

  /** A point in time is printed as its date, a blank, and a time of day without a sign. */
  lemma DatetimeShape(t: int)
    requires MIN_DATE * 86_400_000_000 <= t < (MAX_DATE + 1) * 86_400_000_000
    ensures MIN_DATE <= t / 86_400_000_000 <= MAX_DATE
    ensures var text := DatetimeText(t);
            && |text| == 26 && text[10] == ' '
            && text[..10] == DateText(t / 86_400_000_000) && text[11..] == TimeText(t % 86_400_000_000)
  {
    hide DateText, TimeText, Clock, Padded;
    var tod: nat := t % 86_400_000_000;
    DateShape(t / 86_400_000_000);
    TimeOfDayWidth(tod);
  }

  lemma TimeOfDayWidth(t: nat)
    requires t < 86_400_000_000
    ensures |TimeText(t)| == 15
  {
    hide Padded;
    assert Power10(2) == 100 && Power10(6) == 1_000_000;
    Rebuild(t);
    PaddedWidth(t / HOUR, 2);
    PaddedWidth(t % HOUR / MINUTE, 2);
    PaddedWidth(t % MINUTE / SECOND, 2);
    PaddedWidth(t % SECOND, 6);
  }
}
