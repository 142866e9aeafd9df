/**
 * The text `Timer.updateDisplay` writes (app.js:25): minutes and seconds of
 * the remaining time, each padded to two characters, around a colon.
 */
module ClockFormat {

  predicate IsDigit(c: char)
  {
    '0' <= c <= '9'
  }

  predicate AllDigits(s: string)
  {
    forall i :: 0 <= i < |s| ==> IsDigit(s[i])
  }

  function DigitChar(d: nat): (c: char)
    requires d < 10
    ensures IsDigit(c) && c as int - '0' as int == d
  {
    "0123456789"[d]
  }

  /** The decimal numeral of n without leading zeros, as JavaScript writes a non-negative integer. */
  function NatToString(n: nat): (s: string)
    ensures 1 <= |s| && AllDigits(s)
    ensures |s| == 1 <==> n < 10
  {
    if n < 10 then [DigitChar(n)] else NatToString(n / 10) + [DigitChar(n % 10)]
  }

  /** How JavaScript writes an integer: a minus sign before the numeral of |x| when x is negative. */
  function IntToString(x: int): (s: string)
    ensures 1 <= |s|
    ensures x < 0 <==> s[0] == '-'
    ensures x >= 0 ==> AllDigits(s)
    ensures x < 0 ==> AllDigits(s[1..]) && 2 <= |s|
  {
    if x < 0 then "-" + NatToString(-x) else NatToString(x)
  }

  /** Left-pads a text with '0' to two characters; a longer text is kept as it is. */
  function PadStart2(s: string): (p: string)
    ensures |p| == if |s| < 2 then 2 else |s|
    ensures p[|p| - |s|..] == s
    ensures forall i :: 0 <= i < |p| - |s| ==> p[i] == '0'
  {
    if |s| == 0 then "00" else if |s| == 1 then "0" + s else s
  }

  /**
   * JavaScript's remainder for a positive divisor: it truncates the quotient
   * toward zero, so the result is below b in size, takes the sign of a, and
   * differs from a by a multiple of b.
   */
  function JsRem(a: int, b: int): (r: int)
    requires b > 0
    ensures -b < r < b
    ensures a >= 0 ==> r >= 0
    ensures a <= 0 ==> r <= 0
    ensures (a - r) % b == 0
    ensures a >= 0 ==> r == a % b
  {
    if a >= 0 then
      MultipleRem(a / b, b);
      assert a - a % b == (a / b) * b;
      a % b
    else
      var q := (-a) / b;
      MultipleRem(-q, b);
      assert a + (-a) % b == (-q) * b;
      -((-a) % b)
  }

  /** A multiple of b leaves no remainder. */
  lemma MultipleRem(k: int, b: int)
    requires b > 0
    ensures (k * b) % b == 0
  {
    var x := k * b;
    var q, r := x / b, x % b;
    var d := k - q;
    assert d * b == r;
    if d > 0 {
      AtLeastOnce(d, b);
    } else if d < 0 {
      AtLeastOnce(-d, b);
    }
  }

  lemma {:induction false} AtLeastOnce(d: nat, b: nat)
    requires d >= 1
    ensures d * b >= b
    decreases d
  {
    if d > 1 {
      AtLeastOnce(d - 1, b);
      assert d * b == (d - 1) * b + b;
    }
  }

  /**
   * The minutes (the quotient by 60 rounded down) and the seconds (the
   * remainder), each padded to two characters, around a colon. For a positive
   * divisor Dafny's division already rounds down.
   */
  function Display(remaining: int): (d: string)
    ensures exists m, sec :: d == m + ":" + sec && |m| >= 2 && |sec| >= 2
  {
    PadStart2(IntToString(remaining / 60)) + ":" + PadStart2(IntToString(JsRem(remaining, 60)))
  }

  /** The number a string of decimal digits denotes. */
  function DigitsValue(s: string): nat
    requires AllDigits(s)
  {
    if s == [] then 0 else DigitsValue(s[..|s| - 1]) * 10 + (s[|s| - 1] as int - '0' as int)
  }

  /** Reads a clock text back: the digits before the colon are minutes, the last two are seconds. */
  function ParseClock(d: string): int
    requires |d| >= 3 && AllDigits(d[..|d| - 3]) && AllDigits(d[|d| - 2..])
  {
    DigitsValue(d[..|d| - 3]) * 60 + DigitsValue(d[|d| - 2..])
  }

  /**
   * d is a clock text for the time r: at least two minute digits, a colon and
   * two second digits denoting 0..59, which read back as r.
   */
  predicate ReadsBack(d: string, r: int)
  {
    |d| >= 5 && d[|d| - 3] == ':' && AllDigits(d[..|d| - 3]) && AllDigits(d[|d| - 2..]) &&
    DigitsValue(d[|d| - 2..]) < 60 && ParseClock(d) == r
  }

  lemma {:induction false} NatToStringValue(n: nat)
    ensures DigitsValue(NatToString(n)) == n
  {
    if n >= 10 {
      var s := NatToString(n);
      assert s[..|s| - 1] == NatToString(n / 10);
      NatToStringValue(n / 10);
    }
  }

  /** A leading zero does not change the value of a numeral. */
  lemma {:induction false} LeadingZero(s: string)
    requires AllDigits(s)
    ensures AllDigits("0" + s) && DigitsValue("0" + s) == DigitsValue(s)
    decreases |s|
  {
    if s != [] {
      var t := "0" + s;
      assert t[..|t| - 1] == "0" + s[..|s| - 1];
      LeadingZero(s[..|s| - 1]);
    }
  }

  /** Padding a numeral keeps it a numeral of the same value, at least two characters long. */
  lemma PadStart2Value(s: string)
    requires 1 <= |s| && AllDigits(s)
    ensures var p := PadStart2(s); 2 <= |p| && AllDigits(p) && DigitsValue(p) == DigitsValue(s)
    ensures |s| <= 2 ==> |PadStart2(s)| == 2
  {
    if |s| == 1 {
      LeadingZero(s);
    }
  }

  /**
   * For a non-negative remaining time the text is mm:ss with at least two
   * minute digits and exactly two second digits denoting 0..59, and reading it
   * back gives the remaining time.
   */
  lemma DisplayRoundTrip(remaining: nat)
    ensures ReadsBack(Display(remaining), remaining)
    ensures var d := Display(remaining); DigitsValue(d[|d| - 2..]) == remaining % 60 < 60
  {
    var m, s := remaining / 60, remaining % 60;
    var mm, ss := PadStart2(NatToString(m)), PadStart2(NatToString(s));
    DisplayFields(remaining);
    MinutesField(m);
    SecondsField(s);
    Fields(mm, ss);
    var d := Display(remaining);
    assert d == mm + ":" + ss;
    assert DigitsValue(d[|d| - 2..]) == s;
    assert m * 60 + s == remaining;
  }

  /** For a non-negative time both fields are plain numerals of the quotient and the remainder. */
  lemma DisplayFields(remaining: nat)
    ensures Display(remaining) == PadStart2(NatToString(remaining / 60)) + ":" + PadStart2(NatToString(remaining % 60))
  {
    assert JsRem(remaining, 60) == remaining % 60;
  }

  /** The minutes field: at least two digits denoting the minutes. */
  lemma MinutesField(m: nat)
    ensures var mm := PadStart2(NatToString(m)); |mm| >= 2 && AllDigits(mm) && DigitsValue(mm) == m
  {
    PadStart2Value(NatToString(m));
    NatToStringValue(m);
  }

  /** The seconds field of a remainder by 60: two digits denoting it. */
  lemma SecondsField(s: nat)
    requires s < 60
    ensures var ss := PadStart2(NatToString(s)); |ss| == 2 && AllDigits(ss) && DigitsValue(ss) == s
  {
    PadStart2Value(NatToString(s));
    NatToStringValue(s);
    assert |NatToString(s)| <= 2 by {
      if s >= 10 {
        assert s / 10 < 10;
      }
    }
  }

  /** Two numerals around a colon, the second of two digits, read back as minutes and seconds. */
  lemma Fields(mm: string, ss: string)
    requires |mm| >= 2 && AllDigits(mm) && |ss| == 2 && AllDigits(ss) && DigitsValue(ss) < 60
    ensures var d := mm + ":" + ss;
      ReadsBack(d, DigitsValue(mm) * 60 + DigitsValue(ss)) && d[|d| - 2..] == ss
  {
    Around(mm, ss);
  }

  /** The two fields of a text built around a colon. */
  lemma Around(mm: string, ss: string)
    requires |ss| == 2
    ensures var d := mm + ":" + ss;
      |d| == |mm| + 3 && d[|d| - 3] == ':' && d[..|d| - 3] == mm && d[|d| - 2..] == ss
  {
    var d := mm + ":" + ss;
    assert d[..|d| - 3] == mm;
    assert d[|d| - 2..] == ss;
  }

  /** A negative time is not padded the same way: -5 s shows as "-1:-5". */
  lemma DisplayNegative()
    ensures Display(-5) == "-1:-5"
  {
  }
}
