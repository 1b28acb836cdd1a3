/** The text shown on each half of the screen: a remaining time in
    milliseconds written as minutes, seconds and hundredths of a second,
    separated by ':', with seconds and hundredths padded to two digits. */
module TimeFormat {
  import ClockSpec

  predicate IsDigit(c: char) {
    '0' <= c <= '9'
  }

  predicate AllDigits(s: string) {
    forall i :: 0 <= i < |s| ==> IsDigit(s[i])
  }

  function DigitChar(d: nat): (c: char)
    requires d < 10
    ensures IsDigit(c)
  {
    (48 + d) as char
  }

  function DigitValue(c: char): nat
    requires IsDigit(c)
  {
    c as int - 48
  }

  /** The decimal numeral of `n`, as a template literal writes a
      non-negative integer. */
  function NatToString(n: nat): (r: string)
    ensures |r| >= 1 && AllDigits(r)
    ensures r[0] == '0' <==> n == 0
    ensures n < 10 <==> |r| == 1
    decreases n
  {
    if n < 10 then [DigitChar(n)] else NatToString(n / 10) + [DigitChar(n % 10)]
  }

  /** The number a string of decimal digits denotes. */
  function ValueOf(s: string): nat
    requires AllDigits(s)
    decreases |s|
  {
    if s == [] then 0 else ValueOf(s[..|s| - 1]) * 10 + DigitValue(s[|s| - 1])
  }

  /** Reading a numeral back gives the number it was written from. */
  lemma {:induction false} NatToStringReadsBack(n: nat)
    ensures ValueOf(NatToString(n)) == n
    decreases n
  {
    if n >= 10 {
      var r := NatToString(n);
      assert r[..|r| - 1] == NatToString(n / 10);
      NatToStringReadsBack(n / 10);
    }
  }

  /** A number below 100 in two digits, with a leading '0' below 10. */
  function Pad2(n: nat): (r: string)
    requires n < 100
    ensures |r| == 2 && AllDigits(r) && ValueOf(r) == n
    ensures r[0] == '0' <==> n < 10
  {
    NatToStringReadsBack(n);
    var r := (if n < 10 then "0" else "") + NatToString(n);
    assert n < 10 ==> r[..1] == "0";
    r
  }

  function Minutes(time: nat): nat {
    time / 60000
  }

  function Seconds(time: nat): nat {
    (time % 60000) / 1000
  }

  /** The third field; the source names it milliseconds, but it counts
      hundredths of a second. */
  function Hundredths(time: nat): nat {
    (time % 1000) / 10
  }

  lemma MulAtLeastOnce(k: int, b: int)
    requires k >= 1 && b > 0
    ensures k * b >= b
  {
  }

  /** Division with remainder has one answer: a quotient and a
      remainder in range that rebuild `x` are the ones `/` and `%` give. */
  lemma DivModUnique(x: int, b: int, q: int, m: int)
    requires b > 0 && 0 <= m < b && x == q * b + m
    ensures x / b == q && x % b == m
  {
    var d := x / b - q;
    assert (x / b) * b == q * b + d * b;
    assert d * b == m - x % b;
    if d > 0 {
      MulAtLeastOnce(d, b);
    } else if d < 0 {
      MulAtLeastOnce(-d, b);
    }
  }

  /** Taking a remainder by a multiple of `b` keeps the remainder by `b`,
      and the quotient of that remainder by `b` is below `a`. */
  lemma ModOfMultiple(x: nat, a: nat, b: nat)
    requires a > 0 && b > 0
    ensures (x % (a * b)) / b < a
    ensures (x % (a * b)) % b == x % b
  {
    var r := x % (a * b);
    var q := x / (a * b);
    var hi, lo := r / b, r % b;
    assert r == hi * b + lo;
    assert hi < a by {
      if a <= hi {
        MulAtLeastOnce(hi - a + 1, b);
      }
    }
    assert q * (a * b) == (q * a) * b;
    assert x == (q * a + hi) * b + lo;
    DivModUnique(x, b, q * a + hi, lo);
  }

  /** The three fields are in range and, with the last digit the display
      drops, add up to the time they were taken from. */
  lemma {:induction false} FieldsRebuildTime(time: nat)
    ensures Seconds(time) < 60 && Hundredths(time) < 100
    ensures Minutes(time) * 60000 + Seconds(time) * 1000 + Hundredths(time) * 10 + time % 10 == time
  {
    ModOfMultiple(time, 60, 1000);
    ModOfMultiple(time, 100, 10);
    var rest := time % 60000;
    assert time == Minutes(time) * 60000 + rest;
    assert rest == Seconds(time) * 1000 + time % 1000;
    var ms := time % 1000;
    assert ms == Hundredths(time) * 10 + time % 10;
  }

  /** The display text of a remaining time, as `formatTime` builds it. */
  function FormatTime(time: nat): (r: string)
    ensures |r| >= 7 && r[|r| - 6] == ':' && r[|r| - 3] == ':'
  {
    FieldsRebuildTime(time);
    NatToString(Minutes(time)) + ":" + Pad2(Seconds(time)) + ":" + Pad2(Hundredths(time))
  }

  /** The display text reads back as three numerals: the minutes, then
      the seconds and the hundredths in two digits each; together they
      give the time to the hundredth of a second. */
  lemma FormatTimeReadsBack(time: nat)
    ensures var r := FormatTime(time); var n := |r|;
      && n >= 7 && r[n - 6] == ':' && r[n - 3] == ':'
      && AllDigits(r[..n - 6]) && AllDigits(r[n - 5..n - 3]) && AllDigits(r[n - 2..])
      && ValueOf(r[..n - 6]) == Minutes(time)
      && ValueOf(r[n - 5..n - 3]) == Seconds(time)
      && ValueOf(r[n - 2..]) == Hundredths(time)
      && ValueOf(r[..n - 6]) * 60000 + ValueOf(r[n - 5..n - 3]) * 1000 + ValueOf(r[n - 2..]) * 10
         == time - time % 10
  {
    FieldsRebuildTime(time);
    NatToStringReadsBack(Minutes(time));
    var m := NatToString(Minutes(time));
    var r := FormatTime(time);
    var n := |r|;
    assert r[..n - 6] == m;
    assert r[n - 5..n - 3] == Pad2(Seconds(time));
    assert r[n - 2..] == Pad2(Hundredths(time));
  }

  /** Every time a clock can hold has a single minutes digit, so the
      display is always seven characters wide. */
  lemma {:induction false} ClockDisplayWidth(time: nat)
    requires time <= ClockSpec.INITIAL_TIME
    ensures |FormatTime(time)| == 7
  {
    assert Minutes(time) < 10;
  }

  /** 65010 ms is one minute, five seconds and one hundredth. */
  lemma FormatExample()
    ensures FormatTime(65010) == "1:05:01"
  {
    assert NatToString(1) == "1";
    assert Pad2(5) == "05";
    assert Pad2(1) == "01";
  }
}
