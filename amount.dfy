/**
 * Amounts of money.  The bot keeps amounts as JavaScript numbers rounded to
 * two decimals (`Math.round(x * 100) / 100`) and prints them with
 * `toFixed(2)`.  The model keeps them as whole cents, and keeps NaN, because
 * the aggregator can carry a NaN into a total.
 */
module Amount {
  import opened Wrappers
  import Text

  /** A JavaScript number as the pipeline handles it: a whole number of cents, or NaN. */
  datatype Num = Cents(cents: int) | NaN

  /** JavaScript `+` on two numbers: NaN absorbs. */
  function Plus(x: Num, y: Num): Num {
    if x.Cents? && y.Cents? then Cents(x.cents + y.cents) else NaN
  }

  /** JavaScript truthiness of a number: exactly 0 and NaN are falsy. */
  predicate Falsy(x: Num) {
    x == NaN || x == Cents(0)
  }

  predicate IsDigit(ch: char) {
    '0' <= ch <= '9'
  }

  predicate AllDigits(s: string) {
    forall k :: 0 <= k < |s| ==> IsDigit(s[k])
  }

  function DigitValue(ch: char): nat
    requires IsDigit(ch)
  {
    ch as int - '0' as int
  }

  function DigitChar(d: nat): (ch: char)
    requires d < 10
    ensures IsDigit(ch) && DigitValue(ch) == d
  {
    ('0' as int + d) as char
  }

  /** The number a string of decimal digits denotes, most significant digit first. */
  function DigitsValue(ds: string): nat
    requires AllDigits(ds)
  {
    if ds == [] then 0 else DigitsValue(ds[..|ds| - 1]) * 10 + DigitValue(ds[|ds| - 1])
  }

  /** The shortest decimal numeral of `n`: it denotes `n`, and it has no
      leading zero unless it is the single digit `0`. */
  function Numeral(n: nat): (ds: string)
    ensures |ds| >= 1 && AllDigits(ds) && DigitsValue(ds) == n
    ensures |ds| == 1 || ds[0] != '0'
  {
    if n < 10 then [DigitChar(n)]
    else
      var front := Numeral(n / 10);
      var ds := front + [DigitChar(n % 10)];
      assert ds[..|ds| - 1] == front;
      ds
  }

  function Pow10(k: nat): (p: nat)
    ensures p >= 1
  {
    if k == 0 then 1 else 10 * Pow10(k - 1)
  }

  /**
   * `Math.round(v / 10^k * 100)`: the value `v / 10^k` in cents, rounded to
   * the nearest whole cent, a tie going up (toward +infinity) as
   * `Math.round` does.
   */
  function RoundToCents(v: int, k: nat): (c: int)
    ensures 2 * c * Pow10(k) <= 200 * v + Pow10(k) < 2 * c * Pow10(k) + 2 * Pow10(k)
  {
    var p := Pow10(k);
    var c := (200 * v + p) / (2 * p);
    assert 2 * p * c <= 200 * v + p < 2 * p * c + 2 * p;
    c
  }

  /** Plain decimal text after its sign: digits with at most one point among
      them, and at least one digit. */
  predicate DecimalBody(u: string) {
    && u != [] && u != "."
    && Text.Count(u, '.') <= 1
    && forall k :: 0 <= k < |u| ==> IsDigit(u[k]) || u[k] == '.'
  }

  /** Text that reads as a number in this model: leading whitespace, an
      optional sign, then a decimal body, and nothing after it. */
  predicate IsDecimal(s: string) {
    var t := s[Text.FirstNonBlank(s)..];
    if |t| > 0 && (t[0] == '-' || t[0] == '+') then DecimalBody(t[1..]) else DecimalBody(t)
  }

  /**
   * `Math.round(parseFloat(s) * 100) / 100`, in cents.  Leading whitespace
   * is skipped, as `parseFloat` does; the rest must be in plain decimal
   * notation.  None stands for NaN.
   */
  function ParseCents(s: string): (r: Option<int>)
    ensures r.Some? <==> IsDecimal(s)
  {
    var t := s[Text.FirstNonBlank(s)..];
    if |t| > 0 && (t[0] == '-' || t[0] == '+') then
      ParseUnsignedAccepts(t[1..], t[0] == '-');
      ParseUnsigned(t[1..], t[0] == '-')
    else
      ParseUnsignedAccepts(t, false);
      ParseUnsigned(t, false)
  }

  /** The decimal numeral after the sign, read as cents and negated when `negative`. */
  function ParseUnsigned(unsigned: string, negative: bool): Option<int> {
    var pieces := Text.Split(unsigned, '.');
    if |pieces| > 2 then None
    else
      var whole := pieces[0];
      var fraction := if |pieces| == 2 then pieces[1] else [];
      if !AllDigits(whole) || !AllDigits(fraction) || |whole| + |fraction| == 0 then None
      else
        assert AllDigits(whole + fraction);
        var magnitude: int := DigitsValue(whole + fraction);
        Some(RoundToCents(if negative then -magnitude else magnitude, |fraction|))
  }

  /** The numeral after the sign is read exactly when it is a decimal body. */
  lemma ParseUnsignedAccepts(unsigned: string, negative: bool)
    ensures ParseUnsigned(unsigned, negative).Some? <==> DecimalBody(unsigned)
  {
    var pieces := Text.Split(unsigned, '.');
    if |pieces| == 1 {
      assert unsigned == pieces[0];
      assert DecimalBody(unsigned) <==> unsigned != [] && AllDigits(unsigned);
    } else if |pieces| == 2 {
      var whole, fraction := pieces[0], pieces[1];
      assert pieces[1..] == [fraction];
      assert Text.Join(pieces, '.') == whole + ['.'] + Text.Join([fraction], '.');
      assert unsigned == whole + "." + fraction;
      PointBody(whole, fraction);
    }
  }

  /** A decimal body with a point is two digit strings around it. */
  lemma PointBody(whole: string, fraction: string)
    requires '.' !in whole && '.' !in fraction
    requires Text.Count(whole + "." + fraction, '.') == 1
    ensures DecimalBody(whole + "." + fraction) <==> AllDigits(whole) && AllDigits(fraction) && |whole| + |fraction| > 0
  {
    if AllDigits(whole) && AllDigits(fraction) {
      DigitsAroundPoint(whole, fraction);
    }
    if DecimalBody(whole + "." + fraction) {
      PointSplitsDigits(whole, fraction);
    }
  }

  lemma DigitsAroundPoint(whole: string, fraction: string)
    requires AllDigits(whole) && AllDigits(fraction)
    ensures var u := whole + "." + fraction; forall k :: 0 <= k < |u| ==> IsDigit(u[k]) || u[k] == '.'
  {
    var u := whole + "." + fraction;
    forall k | 0 <= k < |u| ensures IsDigit(u[k]) || u[k] == '.' {
      if k < |whole| {
        assert u[k] == whole[k];
      } else if k > |whole| {
        assert u[k] == fraction[k - |whole| - 1];
      }
    }
  }

  lemma PointSplitsDigits(whole: string, fraction: string)
    requires '.' !in whole && '.' !in fraction
    requires var u := whole + "." + fraction; forall k :: 0 <= k < |u| ==> IsDigit(u[k]) || u[k] == '.'
    ensures AllDigits(whole) && AllDigits(fraction)
  {
    var u := whole + "." + fraction;
    forall k | 0 <= k < |whole| ensures IsDigit(whole[k]) {
      assert u[k] == whole[k];
    }
    forall k | 0 <= k < |fraction| ensures IsDigit(fraction[k]) {
      assert u[|whole| + 1 + k] == fraction[k];
    }
  }

  /**
   * `(c / 100).toFixed(2)`: a minus sign for a negative amount, the whole
   * part with no leading zero, a point and exactly two digits.  Only digits,
   * the point and the sign occur in it.
   */
  function FormatCents(c: int): (s: string)
    ensures |s| >= 4 && s[|s| - 3] == '.' && IsDigit(s[|s| - 2]) && IsDigit(s[|s| - 1])
    ensures forall k :: 0 <= k < |s| ==> s[k] == '-' || s[k] == '.' || IsDigit(s[k])
    ensures s[0] == '-' <==> c < 0
    ensures c >= 0 ==> s[0] != '0' || s[1] == '.'
    ensures c < 0 ==> |s| >= 5 && IsDigit(s[1]) && (s[1] != '0' || s[2] == '.')
    ensures forall k :: (if c < 0 then 1 else 0) <= k < |s| - 3 ==> IsDigit(s[k])
  {
    (if c < 0 then "-" else "") + Fixed(if c < 0 then -c else c)
  }

  /** The digits of `m / 100`, a point, and the two digits of `m % 100`. */
  function Fixed(m: nat): (s: string)
    ensures |s| >= 4 && s[|s| - 3] == '.' && IsDigit(s[|s| - 2]) && IsDigit(s[|s| - 1])
    ensures IsDigit(s[0]) && (s[0] != '0' || s[1] == '.')
    ensures forall k :: 0 <= k < |s| ==> s[k] == '.' || IsDigit(s[k])
    ensures forall k :: 0 <= k < |s| - 3 ==> IsDigit(s[k])
  {
    var whole := Numeral(m / 100);
    var s := whole + "." + [DigitChar(m % 100 / 10), DigitChar(m % 10)];
    assert s[0] == whole[0];
    s
  }

  /** `x.toFixed(2)` for any number the pipeline produces. */
  function NumText(x: Num): string {
    match x
    case Cents(c) => FormatCents(c)
    case NaN => "NaN"
  }

  lemma NumTextHasNo(x: Num, ch: char)
    requires ch != '-' && ch != '.' && !IsDigit(ch) && ch != 'N' && ch != 'a'
    ensures ch !in NumText(x)
  {
  }

  /** The digits of the whole part followed by two more digits denote the
      whole part times 100 plus those two digits. */
  lemma {:induction false} DigitsValueTwoMore(front: string, d1: char, d0: char)
    requires AllDigits(front) && IsDigit(d1) && IsDigit(d0)
    ensures AllDigits(front + [d1, d0])
    ensures DigitsValue(front + [d1, d0]) == DigitsValue(front) * 100 + DigitValue(d1) * 10 + DigitValue(d0)
  {
    var ds := front + [d1, d0];
    assert ds[..|ds| - 1] == front + [d1];
    assert (front + [d1])[..|front|] == front;
  }

  /** A numeral, a point and two digits split at the point into the numeral and the two digits. */
  lemma SplitAtPoint(whole: string, d1: char, d0: char)
    requires AllDigits(whole) && IsDigit(d1) && IsDigit(d0)
    ensures Text.Split(whole + "." + [d1, d0], '.') == [whole, [d1, d0]]
  {
    assert '.' !in whole;
    Text.SplitNoSeparator(whole, '.');
    Text.SplitNoSeparator([d1, d0], '.');
    Text.SplitAtSeparator(whole, [d1, d0], '.');
    assert whole + "." + [d1, d0] == whole + ['.'] + [d1, d0];
  }

  /** An amount already in whole cents is left alone by the rounding. */
  lemma RoundWholeCents(c: int)
    ensures RoundToCents(c, 2) == c
  {
    var r := RoundToCents(c, 2);
    assert Pow10(2) == 100;
    assert 200 * r <= 200 * c + 100 < 200 * r + 200;
  }

  /** The whole part and the two digits `toFixed(2)` prints put back together. */
  lemma CentsDigits(m: nat)
    ensures DigitsValue(Numeral(m / 100)) * 100 + DigitValue(DigitChar(m % 100 / 10)) * 10 + DigitValue(DigitChar(m % 10)) == m
  {
    var q, r := m / 100, m % 100;
    assert m == q * 100 + r;
    assert r == (r / 10) * 10 + r % 10;
    assert r % 10 == m % 10;
  }

  /** The unsigned part that `toFixed(2)` prints reads back as its amount. */
  lemma ParseUnsignedFixed(m: nat, negative: bool)
    ensures ParseUnsigned(Fixed(m), negative) == Some(RoundToCents(if negative then -(m as int) else m, 2))
  {
    var whole := Numeral(m / 100);
    var d1, d0 := DigitChar(m % 100 / 10), DigitChar(m % 10);
    assert Fixed(m) == whole + "." + [d1, d0];
    SplitAtPoint(whole, d1, d0);
    DigitsValueTwoMore(whole, d1, d0);
    CentsDigits(m);
  }

  /** A sign in front of an unsigned numeral is read as that sign. */
  lemma ParseSigned(unsigned: string, negative: bool)
    requires |unsigned| > 0 && IsDigit(unsigned[0])
    ensures ParseCents((if negative then "-" else "") + unsigned) == ParseUnsigned(unsigned, negative)
  {
    var s := (if negative then "-" else "") + unsigned;
    assert !Text.IsWhitespace(s[0]);
    assert s[Text.FirstNonBlank(s)..] == s;
    if negative {
      assert s[1..] == unsigned;
    } else {
      assert s == unsigned;
    }
  }

  /** Reading back what `toFixed(2)` printed gives the same amount. */
  lemma {:induction false} FormatThenParse(c: int)
    ensures ParseCents(FormatCents(c)) == Some(c)
  {
    var m := if c < 0 then -c else c;
    ParseUnsignedFixed(m, c < 0);
    RoundWholeCents(c);
    assert (if c < 0 then -(m as int) else m) == c;
    ParseSigned(Fixed(m), c < 0);
  }
}
