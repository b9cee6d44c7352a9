/**
  * Characters and decimal numbers as the JSON reader and printer see them.
  */
module Text {

  datatype Option<+T> = None | Some(value: T)

  const LONG_LONG_MIN: int := -0x8000_0000_0000_0000
  const LONG_LONG_MAX: int := 0x7FFF_FFFF_FFFF_FFFF

  predicate IsLongLong(n: int) {
    LONG_LONG_MIN <= n <= LONG_LONG_MAX
  }

  /** The characters the reader skips between tokens: the three "empty" ones and the newline. */
  predicate IsBlank(c: char) {
    c == ' ' || c == '\t' || c == '\r' || c == '\n'
  }

  ghost predicate AllBlank(s: string) {
    forall i | 0 <= i < |s| :: IsBlank(s[i])
  }

  /** White space of JSON: blank, tab, carriage return and newline. What the reader skips is proved to be this. */
  predicate White(c: char) {
    c == ' ' || c == '\t' || c == '\r' || c == '\n'
  }

  ghost predicate AllWhite(s: string) {
    forall i | 0 <= i < |s| :: White(s[i])
  }

  ghost predicate QuoteFree(s: string) {
    '\"' !in s
  }

  predicate IsDigit(c: char) {
    '0' <= c <= '9'
  }

  function DigitChar(d: nat): (c: char)
    requires d < 10
    ensures IsDigit(c)
  {
    '0' + d as char
  }

  function DigitOf(c: char): nat
    requires IsDigit(c)
  {
    c as int - '0' as int
  }

  ghost predicate AllDigits(s: string) {
    forall i | 0 <= i < |s| :: IsDigit(s[i])
  }

  /** Decimal digits of a natural number, most significant first. */
  function Digits(n: nat): (s: string)
    ensures |s| > 0 && AllDigits(s)
  {
    if n < 10 then [DigitChar(n)] else Digits(n / 10) + [DigitChar(n % 10)]
  }

  /** What a stream prints for a `long long`. */
  function Decimal(n: int): string {
    if n < 0 then "-" + Digits(-n) else Digits(n)
  }

  /** The number a digit string denotes, most significant digit first. */
  function NumberOf(s: string): nat
    requires AllDigits(s)
  {
    if s == "" then 0 else 10 * NumberOf(s[..|s| - 1]) + DigitOf(s[|s| - 1])
  }

  /** How many digits `s` starts with. */
  function DigitRun(s: string): (k: nat)
    ensures k <= |s| && AllDigits(s[..k])
    ensures k < |s| ==> !IsDigit(s[k])
  {
    if s == "" || !IsDigit(s[0]) then 0 else 1 + DigitRun(s[1..])
  }

  /**
    * `std::stoll` on text that holds no white space: an optional sign and the longest run of
    * digits; whatever follows is ignored. `None` stands for `invalid_argument` (no digit) and
    * for `out_of_range`.
    */
  function Stoll(s: string): Option<int> {
    var signed := s != "" && (s[0] == '-' || s[0] == '+');
    var body := if signed then s[1..] else s;
    var k := DigitRun(body);
    var magnitude: int := NumberOf(body[..k]);
    var n: int := if signed && s[0] == '-' then -magnitude else magnitude;
    if k > 0 && IsLongLong(n) then Some(n) else None
  }

  /**
    * Whether `std::stod` converts text that holds no white space and no letter but 'e': after an
    * optional sign there is a digit, or a '.' and a digit; whatever follows is ignored.
    */
  predicate StodConverts(s: string) {
    var body := if s != "" && (s[0] == '-' || s[0] == '+') then s[1..] else s;
    body != "" && (IsDigit(body[0]) || (body[0] == '.' && |body| > 1 && IsDigit(body[1])))
  }

  lemma {:induction false} NumberOfDigits(n: nat)
    ensures NumberOf(Digits(n)) == n
  {
    if n < 10 {
      assert Digits(n)[..0] == "";
    } else {
      var front := Digits(n / 10);
      assert Digits(n) == front + [DigitChar(n % 10)];
      assert Digits(n)[..|front|] == front;
      NumberOfDigits(n / 10);
    }
  }

  lemma {:induction false} DigitRunOfDigits(s: string)
    requires AllDigits(s)
    ensures DigitRun(s) == |s|
  {
    if s != "" {
      DigitRunOfDigits(s[1..]);
    }
  }

  /** Reading back a printed integer gives the integer, if it has at most 64 bits, and else nothing. */
  lemma StollInvertsDecimal(n: int)
    ensures Stoll(Decimal(n)) == if -9223372036854775808 <= n <= 9223372036854775807 then Some(n) else None
    ensures IsLongLong(n) <==> -9223372036854775808 <= n <= 9223372036854775807
  {
    hide Digits, NumberOf, DigitRun;
    var magnitude: nat := if n < 0 then -n else n;
    var body := Digits(magnitude);
    NumberOfDigits(magnitude);
    DigitRunOfDigits(body);
    assert body[..|body|] == body;
    if n < 0 {
      assert Decimal(n)[1..] == body;
    }
  }

  /** An optional sign, digits, and whatever follows them if it starts with no digit: the digits count, within 64 bits. */
  lemma StollTakes(sign: string, digits: string, tail: string)
    requires sign in {"", "-", "+"} && digits != "" && AllDigits(digits) && (tail != "" ==> !IsDigit(tail[0]))
    ensures var magnitude: int := NumberOf(digits);
            var n := if sign == "-" then -magnitude else magnitude;
            Stoll(sign + digits + tail) == if -9223372036854775808 <= n <= 9223372036854775807 then Some(n) else None
  {
    hide NumberOf, DigitRun;
    var s, body := sign + digits + tail, digits + tail;
    assert sign != "" ==> s[1..] == body;
    assert sign == "" ==> s == body && IsDigit(s[0]);
    DigitRunStops(digits, tail);
    assert body[..|digits|] == digits;
  }

  lemma {:induction false} DigitRunStops(digits: string, tail: string)
    requires AllDigits(digits) && (tail != "" ==> !IsDigit(tail[0]))
    ensures DigitRun(digits + tail) == |digits|
  {
    if digits == "" {
      assert digits + tail == tail;
    } else {
      assert (digits + tail)[1..] == digits[1..] + tail;
      DigitRunStops(digits[1..], tail);
    }
  }

  /** Without a digit behind the sign there is no number. */
  lemma StollNeedsDigit(sign: string, tail: string)
    requires sign in {"-", "+"} || (sign == "" && (tail != "" ==> tail[0] != '-' && tail[0] != '+'))
    requires tail != "" ==> !IsDigit(tail[0])
    ensures Stoll(sign + tail) == None
  {
    assert sign != "" ==> (sign + tail)[1..] == tail;
    assert sign == "" ==> sign + tail == tail;
  }

  /** A floating point literal needs a digit, or a '.' and a digit, behind its sign. */
  lemma StodTakes(sign: string, body: string)
    requires sign in {"-", "+"} || (sign == "" && (body != "" ==> body[0] != '-' && body[0] != '+'))
    ensures StodConverts(sign + body) <==>
              || (|body| >= 1 && '0' <= body[0] <= '9')
              || (|body| >= 2 && body[0] == '.' && '0' <= body[1] <= '9')
  {
    assert sign != "" ==> (sign + body)[1..] == body;
    assert sign == "" ==> sign + body == body;
  }

  /** Integers are printed with a '-' exactly below zero and digits behind it, and no needless zero in front. */
  lemma DecimalShape(n: int)
    ensures var s := Decimal(n);
            var body := if n < 0 then s[1..] else s;
            && s != "" && (n < 0 <==> s[0] == '-')
            && body != "" && (forall i | 0 <= i < |body| :: '0' <= body[i] <= '9')
            && (body[0] == '0' ==> n == 0 && body == "0")
    ensures var s := Decimal(n); (s[0] == '-' || IsDigit(s[0])) && AllDigits(s[1..])
  {
    hide Digits;
    var body := Digits(if n < 0 then -n else n);
    NoNeedlessZero(if n < 0 then -n else n);
    assert n < 0 ==> Decimal(n)[1..] == body;
  }

  lemma {:induction false} NoNeedlessZero(n: nat)
    ensures Digits(n)[0] == '0' ==> n == 0 && Digits(n) == "0"
  {
    if n >= 10 {
      NoNeedlessZero(n / 10);
    }
  }

  /** Digits count by their place: those in front are worth ten for each digit behind them. */
  lemma {:induction false} NumberIsPositional(front: string, c: char, back: string)
    requires AllDigits(front) && AllDigits(back) && '0' <= c <= '9'
    ensures AllDigits(front + [c] + back) && AllDigits(front + [c])
    ensures NumberOf([c] + back) == (c as int - 48) * Power10(|back|) + NumberOf(back)
    ensures NumberOf(front + [c] + back) == NumberOf(front + [c]) * Power10(|back|) + NumberOf(back)
    decreases |back|
  {
    var whole, last := front + [c] + back, |back| - 1;
    if back == "" {
      assert whole == front + [c] && [c] + back == [c];
      assert [c][..0] == "";
    } else {
      var init := back[..last];
      assert whole[..|whole| - 1] == front + [c] + init && ([c] + back)[..last + 1] == [c] + init;
      NumberIsPositional(front, c, init);
      PlaceStep(c as int - 48, NumberOf(front + [c]), Power10(last), NumberOf(init), DigitOf(back[last]));
    }
  }

  lemma PlaceStep(d: int, n: int, power: int, rest: int, digit: int)
    ensures 10 * (d * power + rest) + digit == d * (10 * power) + (10 * rest + digit)
    ensures 10 * (n * power + rest) + digit == n * (10 * power) + (10 * rest + digit)
  {
  }

  function Power10(w: nat): nat {
    if w == 0 then 1 else 10 * Power10(w - 1)
  }

  /** `r` is what remains of `s` after some prefix. */
  predicate IsSuffix(r: string, s: string) {
    |r| <= |s| && r == s[|s| - |r|..]
  }
}
