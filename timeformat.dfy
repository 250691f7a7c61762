/**
 * `formatTime` of the study page: a number of seconds rendered as
 * minutes and seconds, each turned into a decimal string the way
 * JavaScript's `Number.prototype.toString` does and left-padded with '0'
 * to two characters.  `ParseTime` reads such a display back.
 */
module TimeFormat {
  import opened Wrappers

  predicate IsDigit(c: char)
  {
    '0' <= c <= '9'
  }

  predicate AllDigits(s: string)
  {
    forall i :: 0 <= i < |s| ==> IsDigit(s[i])
  }

  function DigitChar(d: int): (c: char)
    requires 0 <= d < 10
    ensures IsDigit(c) && c as int - '0' as int == d
  {
    (d + '0' as int) as char
  }

  /** The number a string of decimal digits denotes (most significant first). */
  function DigitsValue(s: string): (n: nat)
    requires AllDigits(s)
  {
    if s == [] then 0 else DigitsValue(s[..|s| - 1]) * 10 + (s[|s| - 1] as int - '0' as int)
  }

  /** The decimal numeral of a non-negative integer, without leading zeros. */
  function NatToString(n: nat): (s: string)
    ensures AllDigits(s) && |s| >= 1
    ensures n < 10 ==> |s| == 1
    ensures 10 <= n < 100 ==> |s| == 2
    ensures n >= 1 ==> s[0] != '0'
  {
    if n < 10 then [DigitChar(n)] else NatToString(n / 10) + [DigitChar(n % 10)]
  }

  /** `Number.prototype.toString` on an integer: a sign for negatives, then the numeral. */
  function IntToString(n: int): (r: string)
    ensures n >= 0 ==> AllDigits(r) && |r| >= 1 && DigitsValue(r) == n
    ensures n >= 1 ==> r[0] != '0'
    ensures n < 0 ==> |r| >= 2 && r[0] == '-' && AllDigits(r[1..]) && DigitsValue(r[1..]) == -n
  {
    if n < 0 then
      NatToStringValue(-n);
      assert ("-" + NatToString(-n))[1..] == NatToString(-n);
      "-" + NatToString(-n)
    else
      NatToStringValue(n);
      NatToString(n)
  }

  /** `String.prototype.padStart(width, fill)`. */
  function PadStart(s: string, width: nat, fill: char): (r: string)
    ensures |r| == if |s| >= width then |s| else width
    ensures r[|r| - |s|..] == s
    ensures forall i :: 0 <= i < |r| - |s| ==> r[i] == fill
  {
    if |s| >= width then s else [fill] + PadStart(s, width - 1, fill)
  }

  /**
   * JavaScript's `%`: `a` minus a multiple of `b`, smaller than `b` in size
   * and with the sign of the dividend.
   */
  function JsRemainder(a: int, b: int): (r: int)
    requires b > 0
    ensures -b < r < b
    ensures a >= 0 ==> r >= 0
    ensures a <= 0 ==> r <= 0
    ensures (a - r) % b == 0
  {
    if a >= 0 then
      var q := a / b;
      assert a - a % b == q * b;
      MultipleMod(q, b);
      a % b
    else
      var q := (-a) / b;
      assert a + (-a) % b == (-q) * b;
      MultipleMod(-q, b);
      -((-a) % b)
  }

  /** A multiple of `b` leaves no remainder. */
  lemma MultipleMod(q: int, b: int)
    requires b > 0
    ensures (q * b) % b == 0
  {
    var x := q * b;
    var d := q - x / b;
    // the remainder is d * b and lies in [0, b), so d is 0
    assert d * b == x % b;
    if d > 0 {
      assert false;
    } else if d < 0 {
      assert false;
    }
  }

  /**
   * `Math.floor(seconds / 60)` and `seconds % 60`, each as two-or-more
   * characters, joined by ':'.  For a non-negative count the result is
   * MM:SS with at least two minute digits and exactly two second digits.
   */
  function FormatTime(seconds: int): (r: string)
    ensures seconds >= 0 ==> Shows(r, seconds)
    ensures seconds >= 0 ==> |r| == 5 || r[0] != '0'
  {
    var mm := MinutesField(seconds);
    var ss := SecondsField(seconds);
    if seconds >= 0 then
      JoinShows(mm, ss, seconds);
      assert JoinFields(mm, ss)[0] == mm[0];
      JoinFields(mm, ss)
    else
      mm + ":" + ss
  }

  /**
   * `Math.floor(seconds / 60)`, padded; Dafny's division by a positive
   * divisor rounds down.  For a count that is not negative: a numeral of the
   * minutes with at least two digits.
   */
  function MinutesField(seconds: int): (r: string)
    ensures seconds >= 0 ==> |r| >= 2 && AllDigits(r) && DigitsValue(r) == seconds / 60
    ensures seconds >= 0 ==> |r| == 2 || r[0] != '0'
  {
    if seconds >= 0 then TwoDigitNumeral(seconds / 60); PadStart(IntToString(seconds / 60), 2, '0')
    else PadStart(IntToString(seconds / 60), 2, '0')
  }

  /**
   * `seconds % 60` with JavaScript's remainder, padded.  For a count that is
   * not negative: a two-digit numeral of the seconds past the minute.
   */
  function SecondsField(seconds: int): (r: string)
    ensures seconds >= 0 ==> |r| == 2 && AllDigits(r) && DigitsValue(r) == seconds % 60
  {
    if seconds >= 0 then TwoDigitNumeral(seconds % 60); PadStart(IntToString(JsRemainder(seconds, 60)), 2, '0')
    else PadStart(IntToString(JsRemainder(seconds, 60)), 2, '0')
  }

  /** A count padded to two digits, as both fields are. */
  lemma TwoDigitNumeral(n: nat)
    ensures var s := PadStart(NatToString(n), 2, '0');
      && AllDigits(s) && DigitsValue(s) == n
      && |s| >= 2 && (n < 100 ==> |s| == 2)
  {
    NatToStringValue(n);
    PadTwoValue(NatToString(n));
  }

  /** `s` looks like a timer display: a numeral, ':', and a two-digit numeral below 60. */
  predicate IsDisplay(s: string)
  {
    && |s| >= 4 && s[|s| - 3] == ':'
    && AllDigits(s[..|s| - 3]) && AllDigits(s[|s| - 2..])
    && DigitsValue(s[|s| - 2..]) < 60
  }

  /** The number of seconds a display stands for. */
  function DisplayValue(s: string): int
    requires IsDisplay(s)
  {
    DigitsValue(s[..|s| - 3]) * 60 + DigitsValue(s[|s| - 2..])
  }

  /** `r` displays `seconds`, with at least two minute digits. */
  predicate Shows(r: string, seconds: int)
  {
    |r| >= 5 && IsDisplay(r) && DisplayValue(r) == seconds
  }

  /** `mm:ss` with the two fields laid out where `FormatTime` promises them. */
  function JoinFields(mm: string, ss: string): (r: string)
    requires |mm| >= 2 && |ss| == 2
    ensures |r| >= 5 && r[|r| - 3] == ':'
    ensures r[..|r| - 3] == mm && r[|r| - 2..] == ss
  {
    mm + ":" + ss
  }

  lemma JoinShows(mm: string, ss: string, seconds: int)
    requires |mm| >= 2 && |ss| == 2 && AllDigits(mm) && AllDigits(ss)
    requires DigitsValue(ss) < 60 && DigitsValue(mm) * 60 + DigitsValue(ss) == seconds
    ensures Shows(JoinFields(mm, ss), seconds)
  {
    var r := JoinFields(mm, ss);
    assert r[..|r| - 3] == mm && r[|r| - 2..] == ss;
  }

  /** Reads back a display made by `FormatTime`. */
  function ParseTime(s: string): (r: Option<int>)
    ensures r.Some? ==> r.value >= 0
  {
    if IsDisplay(s) then Some(DisplayValue(s)) else None
  }

  /** Reading the display back gives the number of seconds shown. */
  lemma FormatThenParse(seconds: int)
    requires seconds >= 0
    ensures ParseTime(FormatTime(seconds)) == Some(seconds)
  {
  }

  /** The numeral denotes the number. */
  lemma {:induction false} NatToStringValue(n: nat)
    ensures DigitsValue(NatToString(n)) == n
  {
    var s := NatToString(n);
    if n >= 10 {
      NatToStringValue(n / 10);
      assert s[..|s| - 1] == NatToString(n / 10);
    }
  }

  /** Leading zeros do not change the value of a numeral. */
  lemma {:induction false} LeadingZeroValue(s: string)
    requires AllDigits(s)
    ensures AllDigits("0" + s) && DigitsValue("0" + s) == DigitsValue(s)
  {
    if s != [] {
      var z := "0" + s;
      assert z[..|z| - 1] == "0" + s[..|s| - 1];
      LeadingZeroValue(s[..|s| - 1]);
    }
  }

  /** Padding a numeral to two characters keeps it a numeral of the same value. */
  lemma PadTwoValue(s: string)
    requires AllDigits(s) && |s| >= 1
    ensures var p := PadStart(s, 2, '0');
      && AllDigits(p) && DigitsValue(p) == DigitsValue(s)
      && |p| == (if |s| >= 2 then |s| else 2)
  {
    if |s| < 2 {
      assert PadStart(s, 2, '0') == "0" + s;
      LeadingZeroValue(s);
    }
  }
}
