/** Number rendering and parsing as the dashboard does it with Python format
    specifications, and the parse back (`float()` / `pd.to_numeric`) that the
    chart and map branches apply to the rendered text. Values are exact
    integers and reals; `.2f` and `.0f` round half to even on the exact value. */
module NumFormat {
  import opened Wrappers
  import Text

  predicate IsDigit(c: char) { '0' <= c <= '9' }

  predicate AllDigits(s: string) { forall k :: 0 <= k < |s| ==> IsDigit(s[k]) }

  function DigitChar(d: nat): (c: char)
    requires d < 10
    ensures IsDigit(c)
  {
    ((('0' as int) + d) as char)
  }

  function DigitValue(c: char): nat
    requires IsDigit(c)
  {
    (c as int) - ('0' as int)
  }

  function Pow10(k: nat): (p: nat)
    ensures p >= 1
  {
    if k == 0 then 1 else 10 * Pow10(k - 1)
  }

  /** The value of a string of decimal digits (0 for the empty string). */
  function ParseDigits(s: string): nat
    requires AllDigits(s)
  {
    if s == [] then 0 else ParseDigits(s[..|s| - 1]) * 10 + DigitValue(s[|s| - 1])
  }

  /** `str(n)` for a non-negative integer: decimal digits without leading zeros. */
  function Digits(n: nat): (s: string)
    ensures |s| >= 1 && AllDigits(s)
    ensures n > 0 ==> s[0] != '0'
  {
    if n < 10 then [DigitChar(n)] else Digits(n / 10) + [DigitChar(n % 10)]
  }

  lemma {:induction false} DigitsRoundTrip(n: nat)
    ensures ParseDigits(Digits(n)) == n
  {
    if n >= 10 {
      var s := Digits(n);
      assert s[..|s| - 1] == Digits(n / 10);
      DigitsRoundTrip(n / 10);
    }
  }

  /** Three digits with leading zeros, the shape of every group after a separator. */
  function Pad3(n: nat): (s: string)
    requires n < 1000
    ensures |s| == 3 && AllDigits(s)
  {
    [DigitChar(n / 100), DigitChar(n / 10 % 10), DigitChar(n % 10)]
  }

  /** Two digits with a leading zero, the decimals of a `.2f` rendering. */
  function Pad2(n: nat): (s: string)
    requires n < 100
    ensures |s| == 2 && AllDigits(s)
  {
    [DigitChar(n / 10), DigitChar(n % 10)]
  }

  lemma DigitValueOfChar(d: nat)
    requires d < 10
    ensures DigitValue(DigitChar(d)) == d
  {
  }

  lemma Pad2Value(n: nat)
    requires n < 100
    ensures ParseDigits(Pad2(n)) == n
  {
    var s := Pad2(n);
    var hi := [DigitChar(n / 10)];
    assert s[..1] == hi && hi[..0] == [];
    DigitValueOfChar(n / 10);
    DigitValueOfChar(n % 10);
    assert ParseDigits(hi) == n / 10;
  }

  /** Grouping the digits in threes is the same as the digits themselves. */
  lemma DigitsSplit(n: nat)
    requires n >= 1000
    ensures Digits(n) == Digits(n / 1000) + Pad3(n % 1000)
  {
    var t := n / 10;
    var h := t / 10;
    LastThreeDigits(n);
    assert Digits(n) == Digits(t) + [DigitChar(n % 10)];
    assert Digits(t) == Digits(h) + [DigitChar(t % 10)];
    assert Digits(h) == Digits(h / 10) + [DigitChar(h % 10)];
    assert Pad3(n % 1000) == [DigitChar(h % 10), DigitChar(t % 10), DigitChar(n % 10)];
  }

  /** Peeling three decimal digits one at a time is dividing by 1000 once. */
  lemma LastThreeDigits(n: nat)
    requires n >= 1000
    ensures n / 10 >= 100 && n / 10 / 10 >= 10
    ensures n / 1000 == n / 10 / 10 / 10
    ensures n % 1000 / 100 == n / 10 / 10 % 10
    ensures n % 1000 / 10 % 10 == n / 10 % 10
    ensures n % 1000 % 10 == n % 10
  {
    var t, c0 := n / 10, n % 10;
    var h, c1 := t / 10, t % 10;
    var a, c2 := h / 10, h % 10;
    assert n == 1000 * a + (100 * c2 + 10 * c1 + c0);
    ThreeDigits(c2, c1, c0);
  }

  /** The value of three decimal digits, and the digits read back from it. */
  lemma ThreeDigits(c2: nat, c1: nat, c0: nat)
    requires c2 < 10 && c1 < 10 && c0 < 10
    ensures var b := 100 * c2 + 10 * c1 + c0;
            b < 1000 && b / 100 == c2 && b / 10 % 10 == c1 && b % 10 == c0
  {
    var b := 100 * c2 + 10 * c1 + c0;
    assert b / 10 == 10 * c2 + c1;
  }


  /** `f"{n:,}".replace(",", " ")` for a count: digits grouped in threes
      from the right, groups separated by one space. */
  function ThousandsText(n: nat): (s: string)
    ensures |s| >= 1 && IsDigit(s[0])
  {
    if n < 1000 then Digits(n) else ThousandsText(n / 1000) + " " + Pad3(n % 1000)
  }

  /** The same for any integer: a minus sign before the grouped magnitude. */
  function SignedThousandsText(i: int): (s: string)
    ensures |s| >= 1 && (IsDigit(s[0]) || s[0] == '-')
  {
    if i < 0 then "-" + ThousandsText(-i) else ThousandsText(i)
  }

  /** Removing the separators gives back exactly the plain digits. */
  lemma {:induction false} ThousandsWithoutSpaces(n: nat)
    ensures Text.RemoveChar(ThousandsText(n), ' ') == Digits(n)
  {
    if n >= 1000 {
      DropSeparator(ThousandsText(n / 1000), Pad3(n % 1000));
      ThousandsWithoutSpaces(n / 1000);
      DigitsSplit(n);
    } else {
      NoSpaceInDigits(Digits(n));
    }
  }

  /** Removing the spaces of `t + " " + g`, for a group of digits `g`. */
  lemma DropSeparator(t: string, g: string)
    requires AllDigits(g)
    ensures Text.RemoveChar(t + " " + g, ' ') == Text.RemoveChar(t, ' ') + g
  {
    Text.RemoveCharAppend(t + " ", g, ' ');
    Text.RemoveCharAppend(t, " ", ' ');
    assert Text.RemoveChar(" ", ' ') == [];
    NoSpaceInDigits(g);
    assert Text.RemoveChar(t, ' ') + [] == Text.RemoveChar(t, ' ');
  }

  lemma NoSpaceInDigits(s: string)
    requires AllDigits(s)
    ensures ' ' !in s
  {
  }

  /** Round half to even, as Python's `.0f` and `round()` do on the exact value:
      the nearest integer, the even one of two equally near. */
  function RoundHalfEven(x: real): (n: int)
    ensures n as real - x <= 0.5 && x - n as real <= 0.5
    ensures (n as real - x == 0.5 || x - n as real == 0.5) ==> n % 2 == 0
  {
    var f := x.Floor;
    var d := x - f as real;
    if d < 0.5 then f
    else if d > 0.5 then f + 1
    else if f % 2 == 0 then f else f + 1
  }

  /** Python's `int(x)` on a float: truncation toward zero. */
  function Truncate(x: real): (n: int)
    ensures x >= 0.0 ==> 0.0 <= n as real <= x < n as real + 1.0
    ensures x < 0.0 ==> n as real - 1.0 < x <= n as real <= 0.0
  {
    if x >= 0.0 then x.Floor else -((-x).Floor)
  }

  function Abs(x: real): (r: real)
    ensures r >= 0.0 && (r == x || r == -x)
  {
    if x < 0.0 then -x else x
  }

  /** The magnitude of `f"{x:.2f}"` counted in hundredths. */
  function Hundredths(x: real): (h: nat)
    ensures Abs(x) * 100.0 - 0.5 <= h as real <= Abs(x) * 100.0 + 0.5
  {
    RoundHalfEven(Abs(x) * 100.0)
  }

  /** `f"{x:.2f}"`: sign, integer part, a point and exactly two decimals. */
  function Fixed2Text(x: real): string {
    var h := Hundredths(x);
    (if x < 0.0 then "-" else "") + Digits(h / 100) + "." + Pad2(h % 100)
  }

  /** `f"{x:.2f}%"`: how the ratio columns are displayed. */
  function PercentText(x: real): string {
    Fixed2Text(x) + "%"
  }

  /** `f"{x:,.0f}"` after `.replace(",", " ")`: rounded, grouped in threes. */
  function RoundedThousandsText(x: real): string {
    var m: nat := RoundHalfEven(Abs(x));
    (if x < 0.0 then "-" else "") + ThousandsText(m)
  }

  /** Position of the first `c` in `s`, or `|s|` when there is none. */
  function IndexOf(s: string, c: char): (i: nat)
    ensures i <= |s| && c !in s[..i]
    ensures i < |s| ==> s[i] == c
  {
    if s == [] then 0
    else if s[0] == c then 0
    else
      var j := IndexOf(s[1..], c);
      assert s[..1 + j] == [s[0]] + s[1..][..j];
      1 + j
  }

  /** The digits-and-point part of a number: `12`, `12.5`, `12.`, `.5`. */
  function ParseUnsigned(s: string): Option<real> {
    var i := IndexOf(s, '.');
    var whole := s[..i];
    var frac := if i < |s| then s[i + 1..] else [];
    if AllDigits(whole) && AllDigits(frac) && (|whole| > 0 || |frac| > 0) then
      Some(ParseDigits(whole) as real + ParseDigits(frac) as real / Pow10(|frac|) as real)
    else None
  }

  /** The decimal numbers `float()` and `pd.to_numeric` accept here: an
      optional sign, then digits with an optional decimal point. `None` is
      the ValueError of `float()`, or NaN under `errors='coerce'`. */
  function ParseNumber(s: string): Option<real> {
    if |s| > 0 && (s[0] == '-' || s[0] == '+') then
      match ParseUnsigned(s[1..])
      case None => None
      case Some(v) => Some(if s[0] == '-' then -v else v)
    else ParseUnsigned(s)
  }

  lemma {:induction false} IndexAfter(s: string, c: char, t: string)
    requires c !in s
    ensures IndexOf(s + [c] + t, c) == |s|
  {
    if s != [] {
      assert (s + [c] + t)[0] == s[0] && (s + [c] + t)[1..] == s[1..] + [c] + t;
      IndexAfter(s[1..], c, t);
    }
  }

  lemma DigitsHaveNoPoint(s: string)
    requires AllDigits(s)
    ensures '.' !in s && ' ' !in s && '%' !in s && '-' !in s
  {
    assert forall k | 0 <= k < |s| :: IsDigit(s[k]);
  }

  lemma ParseDigitsOnly(n: nat)
    ensures ParseNumber(Digits(n)) == Some(n as real)
  {
    var s := Digits(n);
    DigitsHaveNoPoint(s);
    assert IndexOf(s, '.') == |s|;
    assert s[..|s|] == s;
    DigitsRoundTrip(n);
  }

  /** A count rendered with space separators and read back by
      `.str.replace(' ', '')` and `float()` is the count itself. */
  lemma ThousandsRoundTrip(n: nat)
    ensures ParseNumber(Text.RemoveChar(ThousandsText(n), ' ')) == Some(n as real)
  {
    ThousandsWithoutSpaces(n);
    ParseDigitsOnly(n);
  }

  lemma ParseFixed2Unsigned(h: nat)
    ensures ParseUnsigned(Digits(h / 100) + "." + Pad2(h % 100)) == Some(h as real / 100.0)
  {
    var w, f := Digits(h / 100), Pad2(h % 100);
    var s := w + "." + f;
    DigitsHaveNoPoint(w);
    IndexAfter(w, '.', f);
    assert s[..|w|] == w && s[|w| + 1..] == f;
    assert IndexOf(s, '.') == |w|;
    DigitsRoundTrip(h / 100);
    Pad2Value(h % 100);
    assert Pow10(|f|) == 100;
    assert ParseUnsigned(s) == Some((h / 100) as real + (h % 100) as real / 100.0);
    WholeAndHundredths(h);
  }

  /** Whole hundreds plus the remaining hundredths. */
  lemma WholeAndHundredths(h: nat)
    ensures (h / 100) as real + (h % 100) as real / 100.0 == h as real / 100.0
  {
    var q, r := h / 100, h % 100;
    assert h == 100 * q + r;
    assert h as real == 100.0 * q as real + r as real;
  }

  /** The unsigned part of a `.2f` rendering, without sign. */
  lemma Fixed2Shape(x: real)
    ensures var u := Digits(Hundredths(x) / 100) + "." + Pad2(Hundredths(x) % 100);
            && Fixed2Text(x) == (if x < 0.0 then "-" else "") + u
            && ' ' !in u && '%' !in u && '-' !in u && IsDigit(u[0])
  {
    var h := Hundredths(x);
    var w, f := Digits(h / 100), Pad2(h % 100);
    DigitsHaveNoPoint(w);
    DigitsHaveNoPoint(f);
    assert (w + "." + f)[0] == w[0];
  }

  /** Stripping ' ' and then '%' from `f"{x:.2f}%"` leaves `f"{x:.2f}"`. */
  lemma PercentStripped(x: real)
    ensures Text.RemoveChar(Text.RemoveChar(PercentText(x), ' '), '%') == Fixed2Text(x)
  {
    var h := Hundredths(x);
    var u := Digits(h / 100) + "." + Pad2(h % 100);
    Fixed2Shape(x);
    var body := Fixed2Text(x);
    assert ' ' !in body && '%' !in body by {
      if x < 0.0 { assert body == "-" + u; } else { assert body == u; }
    }
    Text.RemoveCharAppend(body, "%", ' ');
    Text.RemoveCharAppend(body, "%", '%');
    assert Text.RemoveChar("%", ' ') == "%";
    assert Text.RemoveChar("%", '%') == [];
    assert body + [] == body;
  }

  /** The value `f"{x:.2f}"` denotes: `x` rounded to the hundredth. */
  function Rounded2(x: real): (v: real)
    ensures x - 0.005 <= v <= x + 0.005
  {
    var m := Hundredths(x) as real / 100.0;
    if x < 0.0 then -m else m
  }

  lemma ParseNegated(u: string, v: real)
    requires ParseUnsigned(u) == Some(v)
    ensures ParseNumber("-" + u) == Some(-v)
  {
    assert ("-" + u)[0] == '-' && ("-" + u)[1..] == u;
  }

  lemma ParsePlain(u: string)
    requires |u| > 0 && IsDigit(u[0])
    ensures ParseNumber(u) == ParseUnsigned(u)
  {
  }

  /** `float(f"{x:.2f}")` is `x` rounded to the hundredth. */
  lemma Fixed2RoundTrip(x: real)
    ensures ParseNumber(Fixed2Text(x)) == Some(Rounded2(x))
  {
    var h := Hundredths(x);
    var u := Digits(h / 100) + "." + Pad2(h % 100);
    Fixed2Shape(x);
    ParseFixed2Unsigned(h);
    var m := h as real / 100.0;
    assert Rounded2(x) == if x < 0.0 then -m else m;
    if x < 0.0 {
      ParseNegated(u, m);
      assert Fixed2Text(x) == "-" + u;
      assert ParseNumber(Fixed2Text(x)) == Some(-m);
    } else {
      ParsePlain(u);
      assert Fixed2Text(x) == u;
      assert ParseNumber(Fixed2Text(x)) == Some(m);
    }
  }

  /** A ratio rendered with `.2f` and `%` and read back by
      `.str.replace(' ', '').str.replace('%', '')` and `float()` is the ratio
      rounded to the hundredth, so within half a hundredth of the original. */
  lemma PercentRoundTrip(x: real)
    ensures ParseNumber(Text.RemoveChar(Text.RemoveChar(PercentText(x), ' '), '%')) == Some(Rounded2(x))
  {
    PercentStripped(x);
    Fixed2RoundTrip(x);
  }

  /** `str(i)` / `f"{i}"` for an integer: a minus sign and the plain digits. */
  function IntText(i: int): string {
    if i < 0 then "-" + Digits(-i) else Digits(i)
  }

  /** Reading `f"{i}"` back with `float()` gives the integer itself. */
  lemma IntRoundTrip(i: int)
    ensures ParseNumber(IntText(i)) == Some(i as real)
  {
    var n: nat := if i < 0 then -i else i;
    ParseDigitsOnly(n);
    ParsePlain(Digits(n));
    if i < 0 { ParseNegated(Digits(n), n as real); }
  }

  /** `f"{x:.0f}"`: sign and the magnitude rounded half to even. */
  function Fixed0Text(x: real): string {
    var m: nat := RoundHalfEven(Abs(x));
    (if x < 0.0 then "-" else "") + Digits(m)
  }

  /** The value `f"{x:.0f}"` denotes: `x` rounded to an integer. */
  function Rounded0(x: real): (v: real)
    ensures x - 0.5 <= v <= x + 0.5
  {
    var m: nat := RoundHalfEven(Abs(x));
    if x < 0.0 then -(m as real) else m as real
  }

  /** `float(f"{x:.0f}")` is `x` rounded to the nearest integer. */
  lemma Fixed0RoundTrip(x: real)
    ensures ParseNumber(Fixed0Text(x)) == Some(Rounded0(x))
  {
    var m: nat := RoundHalfEven(Abs(x));
    ParseDigitsOnly(m);
    ParsePlain(Digits(m));
    if x < 0.0 {
      ParseNegated(Digits(m), m as real);
      assert Fixed0Text(x) == "-" + Digits(m);
    } else {
      assert Fixed0Text(x) == Digits(m);
    }
  }
}
