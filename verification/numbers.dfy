/**
 * Number parsing as `Long.parseLong`, `Integer.parseInt` and a plain
 * decimal subset of `Double.parseDouble` perform it, and the decimal
 * texts `Long.toString`/`Integer.toString` produce.
 */
module Numbers {
  import opened Wrappers
  import JavaText

  const LONG_MIN: int := -0x8000_0000_0000_0000
  const LONG_MAX: int := 0x7FFF_FFFF_FFFF_FFFF
  const INT_MIN: int := -0x8000_0000
  const INT_MAX: int := 0x7FFF_FFFF

  predicate IsDigit(c: char) {
    '0' <= c <= '9'
  }

  predicate AllDigits(s: string) {
    forall i :: 0 <= i < |s| ==> IsDigit(s[i])
  }

  function DigitValue(c: char): (d: nat)
    requires IsDigit(c)
    ensures d < 10
  {
    (c as int) - ('0' as int)
  }

  function DigitChar(d: nat): (c: char)
    requires d < 10
    ensures IsDigit(c) && DigitValue(c) == d
  {
    ('0' as int + d) as char
  }

  /** The value of a string of decimal digits, most significant first. */
  function DigitsValue(s: string): nat
    requires AllDigits(s)
  {
    if s == [] then 0 else DigitsValue(s[..|s| - 1]) * 10 + DigitValue(s[|s| - 1])
  }

  function Pow10(n: nat): (p: nat)
    ensures p >= 1
  {
    if n == 0 then 1 else 10 * Pow10(n - 1)
  }

  lemma {:induction false} Pow10Add(a: nat, b: nat)
    ensures Pow10(a + b) == Pow10(a) * Pow10(b)
  {
    if b > 0 {
      Pow10Add(a, b - 1);
      assert Pow10(a + b) == 10 * Pow10(a + b - 1);
    }
  }

  lemma {:induction false} Pow10Monotone(a: nat, b: nat)
    requires a <= b
    ensures Pow10(a) <= Pow10(b)
  {
    if a < b {
      Pow10Monotone(a, b - 1);
    }
  }

  /** A digit string read after another one shifts it left by its own length. */
  lemma {:induction false} DigitsValueAppend(a: string, b: string)
    requires AllDigits(a) && AllDigits(b)
    ensures AllDigits(a + b)
    ensures DigitsValue(a + b) == DigitsValue(a) * Pow10(|b|) + DigitsValue(b)
  {
    if b != [] {
      var ab := a + b;
      var b' := b[..|b| - 1];
      var last := DigitValue(b[|b| - 1]);
      assert ab[..|ab| - 1] == a + b';
      DigitsValueAppend(a, b');
      assert ab[|ab| - 1] == b[|b| - 1];
      ShiftAdd(DigitsValue(a), Pow10(|b'|), DigitsValue(b'), last);
    } else {
      assert a + b == a;
    }
  }

  lemma ShiftAdd(va: int, q: int, vb: int, last: int)
    ensures (va * q + vb) * 10 + last == va * (q * 10) + (vb * 10 + last)
  {
  }

  lemma {:induction false} DigitsValueBound(s: string)
    requires AllDigits(s)
    ensures DigitsValue(s) < Pow10(|s|)
  {
    if s != [] {
      DigitsValueBound(s[..|s| - 1]);
    }
  }

  /** `Long.toString`/`Integer.toString` of a non-negative value: digits with no leading zero. */
  function NatToString(n: nat): string {
    if n < 10 then [DigitChar(n)] else NatToString(n / 10) + [DigitChar(n % 10)]
  }

  /** The text of `n` is a nonempty digit string worth `n`, with no leading zero unless `n` is zero. */
  lemma {:induction false} NatToStringDigits(n: nat)
    ensures var s := NatToString(n);
      |s| >= 1 && AllDigits(s) && DigitsValue(s) == n && (s[0] != '0' || n == 0)
  {
    if n >= 10 {
      NatToStringDigits(n / 10);
      var prefix := NatToString(n / 10);
      var s := NatToString(n);
      assert s[..|s| - 1] == prefix;
      assert s[0] == prefix[0];
    }
  }

  /** `Long.toString`/`Integer.toString`: a minus sign for negative values. */
  function IntToString(n: int): string {
    if n < 0 then "-" + NatToString(-n) else NatToString(n)
  }

  /**
   * `Long.parseLong` (range LONG_MIN..LONG_MAX) and `Integer.parseInt`
   * (range INT_MIN..INT_MAX): an optional `+` or `-`, then at least one
   * digit; no blanks; a value outside the range is a format error, as is
   * any other text.
   */
  function ParseInteger(s: string, lo: int, hi: int): (r: Option<int>)
    ensures r.Some? ==> lo <= r.value <= hi
  {
    if s == [] then None
    else
      var body := if s[0] == '-' || s[0] == '+' then s[1..] else s;
      if body == [] || !AllDigits(body) then None
      else
        var v: int := if s[0] == '-' then 0 - DigitsValue(body) else DigitsValue(body);
        if lo <= v <= hi then Some(v) else None
  }

  /** Every in-range integer is read back from its own decimal text. */
  lemma IntegerRoundTrip(n: int, lo: int, hi: int)
    requires lo <= n <= hi
    ensures ParseInteger(IntToString(n), lo, hi) == Some(n)
  {
    NatToStringDigits(if n < 0 then -n else n);
    if n < 0 {
      assert IntToString(n)[1..] == NatToString(-n);
    }
  }

  /** The sign `Long.parseLong` and `new BigDecimal` read in front of the digits: none, `+` or `-`. */
  predicate OptionalSign(sign: string) {
    sign == "" || sign == "+" || sign == "-"
  }

  /**
   * An optionally signed digit string (leading zeros, `-0` and `+` included)
   * reads as the value it spells when that lies in `lo..hi`, and is a format
   * error when it does not.
   */
  lemma ParseIntegerSigned(sign: string, d: string, lo: int, hi: int)
    requires OptionalSign(sign) && d != [] && AllDigits(d)
    ensures var v: int := Signed(sign == "-", DigitsValue(d));
      ParseInteger(sign + d, lo, hi) == if lo <= v <= hi then Some(v) else None
  {
    if sign == "" {
      assert sign + d == d;
      assert d[0] != '-' && d[0] != '+';
    } else {
      assert (sign + d)[0] == sign[0];
      assert (sign + d)[1..] == d;
    }
  }

  /** Text that is not a signed digit string is never a number. */
  lemma ParseIntegerRejectsNonDigits(s: string, lo: int, hi: int)
    requires s != [] && s[0] != '-' && s[0] != '+' && !AllDigits(s)
    ensures ParseInteger(s, lo, hi) == None
  {
  }

  /** An exact decimal number `unscaled / 10^scale`, as `BigDecimal` holds it. */
  datatype Decimal = Decimal(unscaled: int, scale: nat)

  function Value(d: Decimal): real {
    d.unscaled as real / Pow10(d.scale) as real
  }

  /** `BigDecimal.stripTrailingZeros()`, never going below scale 0. */
  function Strip(d: Decimal): Decimal
    decreases d.scale
  {
    if d.scale > 0 && d.unscaled % 10 == 0 then Strip(Decimal(d.unscaled / 10, d.scale - 1)) else d
  }

  /** Stripping keeps the value, never raises the scale, and leaves no trailing zero after the point. */
  lemma {:induction false} StripKeepsValue(d: Decimal)
    ensures Value(Strip(d)) == Value(d)
    ensures Strip(d).scale <= d.scale
    ensures Strip(d).scale > 0 ==> Strip(d).unscaled % 10 != 0
    decreases d.scale
  {
    if d.scale > 0 && d.unscaled % 10 == 0 {
      var q := Decimal(d.unscaled / 10, d.scale - 1);
      StripKeepsValue(q);
      assert Value(q) == Value(d) by {
        var u, p := q.unscaled as real, Pow10(q.scale) as real;
        assert d.unscaled as real == u * 10.0;
        assert Pow10(d.scale) as real == p * 10.0;
        assert (u * 10.0) / (p * 10.0) == u / p;
      }
    }
  }

  /** The number of decimal digits of `n` (1 for zero), `BigDecimal.precision()`. */
  function DigitCount(n: nat): nat {
    if n < 10 then 1 else 1 + DigitCount(n / 10)
  }

  /** `n` has `k` digits exactly when `10^(k-1) <= n < 10^k` (for zero, just `n < 10`). */
  lemma {:induction false} DigitCountBounds(n: nat)
    ensures DigitCount(n) >= 1 && n < Pow10(DigitCount(n))
    ensures n >= 1 ==> Pow10(DigitCount(n) - 1) <= n
  {
    if n >= 10 {
      DigitCountBounds(n / 10);
    }
  }

  function Abs(n: int): nat {
    if n < 0 then -n else n
  }

  /** Digits before the decimal point, as `@Digits` counts them: precision minus scale of the stripped value. */
  function IntegerLength(d: Decimal): int {
    var s := Strip(d);
    DigitCount(Abs(s.unscaled)) - s.scale
  }

  /** Digits after the decimal point, as `@Digits` counts them: the scale of the stripped value. */
  function FractionLength(d: Decimal): nat {
    Strip(d).scale
  }

  /** `u / p <= c` on reals is `u <= c * p` on integers when `p` is positive. */
  lemma DivAtMost(u: int, p: int, c: int)
    requires p >= 1
    ensures u as real / p as real <= c as real <==> u <= c * p
  {
    var q := u as real / p as real;
    var pr := p as real;
    assert q * pr == u as real;
    assert (c * p) as real == c as real * pr;
    if u <= c * p {
      if q > c as real {
        assert (q - c as real) * pr > 0.0;
      }
    }
  }

  /** `u / p >= c` on reals is `u >= c * p` on integers when `p` is positive. */
  lemma DivAtLeast(u: int, p: int, c: int)
    requires p >= 1
    ensures u as real / p as real >= c as real <==> u >= c * p
  {
    var q := u as real / p as real;
    var pr := p as real;
    assert q * pr == u as real;
    assert (c * p) as real == c as real * pr;
    if u >= c * p {
      if q < c as real {
        assert (c as real - q) * pr > 0.0;
      }
    }
  }

  /** More than one integer digit means exactly a magnitude of ten or more. */
  lemma IntegerLengthMeaning(d: Decimal)
    ensures IntegerLength(d) > 1 <==> Value(d) >= 10.0 || Value(d) <= -10.0
  {
    var s := Strip(d);
    var u := Abs(s.unscaled);
    var k := DigitCount(u);
    StripKeepsValue(d);
    DigitCountBounds(u);
    var p := Pow10(s.scale);
    assert Value(d) == s.unscaled as real / p as real;
    assert Pow10(s.scale + 1) == 10 * p;
    DivAtLeast(s.unscaled, p, 10);
    DivAtMost(s.unscaled, p, -10);
    if k - s.scale > 1 {
      Pow10Monotone(s.scale + 1, k - 1);
    } else {
      Pow10Monotone(k, s.scale + 1);
    }
  }

  /**
   * The plain decimal subset of `Double.parseDouble`: surrounding blanks
   * are ignored, then an optional sign, digits, and at most one point,
   * with at least one digit in all (`5`, `-0.25`, `.5` and `5.` are read).
   */
  function ParseDecimal(s: string): (r: Option<Decimal>)
  {
    ParseTrimmedDecimal(JavaText.Trim(s))
  }

  /** `ParseDecimal` once the blanks around the text are gone: an optional sign, then the number. */
  function ParseTrimmedDecimal(t: string): (r: Option<Decimal>)
  {
    if t == [] then None
    else
      var body := if t[0] == '-' || t[0] == '+' then t[1..] else t;
      match ParseUnsignedDecimal(body)
      case None => None
      case Some(d) => Some(if t[0] == '-' then Decimal(0 - d.unscaled, d.scale) else d)
  }

  /** Digits with at most one point, cut at the first point. */
  function ParseUnsignedDecimal(body: string): (r: Option<Decimal>)
  {
    var point := PointIndex(body);
    DecimalOfDigits(body[..point], if point < |body| then body[point + 1..] else [])
  }

  /** The number `whole.fraction`, when both are digit strings and not both empty. */
  function DecimalOfDigits(whole: string, fraction: string): (r: Option<Decimal>)
  {
    if !AllDigits(whole) || !AllDigits(fraction) || |whole| + |fraction| == 0 then None
    else
      assert AllDigits(whole + fraction);
      Some(Decimal(DigitsValue(whole + fraction), |fraction|))
  }

  /** Index of the first `.` in `s`, or `|s|` when there is none. */
  function PointIndex(s: string): (i: nat)
    ensures i <= |s|
  {
    if s == [] then 0 else if s[0] == '.' then 0 else 1 + PointIndex(s[1..])
  }

  /** `PointIndex` stops at the first point: none before it, and one at it unless it is the end. */
  lemma {:induction false} PointIndexFinds(s: string)
    ensures forall j :: 0 <= j < PointIndex(s) ==> s[j] != '.'
    ensures PointIndex(s) < |s| ==> s[PointIndex(s)] == '.'
  {
    if s != [] && s[0] != '.' {
      PointIndexFinds(s[1..]);
      forall j | 0 <= j < PointIndex(s)
        ensures s[j] != '.'
      {
        if j > 0 {
          assert s[j] == s[1..][j - 1];
        }
      }
    }
  }

  /** Left-pads a digit string with zeros to width `w`. */
  function PadZeros(s: string, w: nat): (r: string)
    ensures |r| == if |s| < w then w else |s|
  {
    if |s| >= w then s else "0" + PadZeros(s, w - 1)
  }

  /** Zeros put in front of a digit string leave a digit string of the same value. */
  lemma {:induction false} PadZerosDigits(s: string, w: nat)
    requires AllDigits(s)
    ensures AllDigits(PadZeros(s, w)) && DigitsValue(PadZeros(s, w)) == DigitsValue(s)
  {
    if |s| < w {
      var r := PadZeros(s, w - 1);
      PadZerosDigits(s, w - 1);
      DigitsValueAppend("0", r);
    }
  }

  /** The sign written before a number: `-` when it is negative, nothing otherwise. */
  function SignText(negative: bool): string {
    if negative then "-" else ""
  }

  /** `v` with the sign `negative` selects. */
  function Signed(negative: bool, v: int): int {
    if negative then 0 - v else v
  }

  /** The digits of `|d.unscaled|`, zero-padded so that at least one stands before the point. */
  function DecimalDigits(d: Decimal): (digits: string)
    ensures |digits| >= d.scale + 1
  {
    PadZeros(NatToString(Abs(d.unscaled)), d.scale + 1)
  }

  /** The digits of `d` are a digit string worth `|d.unscaled|`. */
  lemma DecimalDigitsValue(d: Decimal)
    ensures AllDigits(DecimalDigits(d)) && DigitsValue(DecimalDigits(d)) == Abs(d.unscaled)
  {
    NatToStringDigits(Abs(d.unscaled));
    PadZerosDigits(NatToString(Abs(d.unscaled)), d.scale + 1);
  }

  /** The plain decimal text of `d`: sign, integer digits, and exactly `d.scale` fraction digits after a point. */
  function FormatDecimal(d: Decimal): (s: string)
  {
    var digits := DecimalDigits(d);
    var sign := SignText(d.unscaled < 0);
    var point := |digits| - d.scale;
    if d.scale == 0 then sign + digits
    else sign + digits[..point] + "." + digits[point..]
  }

  /** The text after the sign: the integer digits, then a point and the fraction digits when there is a point. */
  function PlainBody(whole: string, fraction: string, point: bool): string {
    whole + (if point then "." + fraction else "")
  }

  /**
   * Reading `sign digits`, `sign whole.fraction` or `sign .fraction`, the
   * forms `new BigDecimal` accepts without an exponent: the sign is none,
   * `+` or `-`, and there is at least one digit on one side of the point.
   */
  lemma ParsePlainDecimal(sign: string, whole: string, fraction: string, point: bool)
    requires OptionalSign(sign) && AllDigits(whole) && AllDigits(fraction)
    requires |whole| >= 1 || (point && |fraction| >= 1)
    requires !point ==> fraction == []
    ensures AllDigits(whole + fraction)
    ensures ParseDecimal(sign + PlainBody(whole, fraction, point))
      == Some(Decimal(Signed(sign == "-", DigitsValue(whole + fraction)), |fraction|))
  {
    DigitsValueAppend(whole, fraction);
    PlainTextTrimmed(sign, whole, fraction, point);
    ParseBody(sign, PlainBody(whole, fraction, point), whole, fraction, point);
  }

  /** Plain decimal text starts and ends with a sign, a digit or a point, so `trim()` keeps all of it. */
  lemma PlainTextTrimmed(sign: string, whole: string, fraction: string, point: bool)
    requires OptionalSign(sign) && AllDigits(whole) && AllDigits(fraction)
    requires |whole| >= 1 || (point && |fraction| >= 1)
    requires !point ==> fraction == []
    ensures JavaText.Trim(sign + PlainBody(whole, fraction, point)) == sign + PlainBody(whole, fraction, point)
  {
    var text := sign + PlainBody(whole, fraction, point);
    assert text[0] == (if sign != "" then sign[0] else if |whole| >= 1 then whole[0] else '.');
    assert text[|text| - 1] == (if point && |fraction| == 0 then '.' else if point then fraction[|fraction| - 1] else whole[|whole| - 1]);
  }

  lemma ParseBody(sign: string, body: string, whole: string, fraction: string, point: bool)
    requires OptionalSign(sign) && AllDigits(whole) && AllDigits(fraction)
    requires |whole| >= 1 || (point && |fraction| >= 1)
    requires !point ==> fraction == []
    requires body == PlainBody(whole, fraction, point)
    ensures AllDigits(whole + fraction)
    ensures ParseTrimmedDecimal(sign + body)
      == Some(Decimal(Signed(sign == "-", DigitsValue(whole + fraction)), |fraction|))
  {
    ParseUnsignedBody(body, whole, fraction, point);
    assert body[0] == (if |whole| >= 1 then whole[0] else '.');
    ParseSigned(sign, body, Decimal(DigitsValue(whole + fraction), |fraction|));
  }

  /** An unsigned body `whole[.fraction]` reads as the digits of both, scaled by the fraction's length. */
  lemma ParseUnsignedBody(body: string, whole: string, fraction: string, point: bool)
    requires AllDigits(whole) && AllDigits(fraction) && |whole| + |fraction| >= 1
    requires !point ==> fraction == []
    requires body == PlainBody(whole, fraction, point)
    ensures AllDigits(whole + fraction)
    ensures ParseUnsignedDecimal(body) == Some(Decimal(DigitsValue(whole + fraction), |fraction|))
  {
    var p := PointIndex(body);
    assert p == |whole| && body[..p] == whole && (if p < |body| then body[p + 1..] else []) == fraction by {
      BodyPieces(body, whole, fraction, point);
    }
    assert AllDigits(whole + fraction);
  }

  /** The first point of `whole[.fraction]` sits right after `whole`, and `fraction` follows it. */
  lemma BodyPieces(body: string, whole: string, fraction: string, point: bool)
    requires AllDigits(whole) && AllDigits(fraction)
    requires !point ==> fraction == []
    requires body == PlainBody(whole, fraction, point)
    ensures var p := PointIndex(body);
      p == |whole| && body[..p] == whole && (if p < |body| then body[p + 1..] else []) == fraction
  {
    assert forall j :: 0 <= j < |whole| ==> body[j] == whole[j] && IsDigit(whole[j]);
    PointIndexAt(body, |whole|);
    assert body[..|whole|] == whole;
    if point {
      assert body[|whole| + 1..] == fraction;
    }
  }

  /** A leading `-` negates what the unsigned body reads as; a `+` or no sign leaves it as it is. */
  lemma ParseSigned(sign: string, body: string, d: Decimal)
    requires OptionalSign(sign) && |body| >= 1 && body[0] != '-' && body[0] != '+'
    requires ParseUnsignedDecimal(body) == Some(d)
    ensures ParseTrimmedDecimal(sign + body) == Some(Decimal(Signed(sign == "-", d.unscaled), d.scale))
  {
    var text := sign + body;
    if sign == "-" {
      assert text[0] == '-' && text[1..] == body;
    } else if sign == "+" {
      assert text[0] == '+' && text[1..] == body;
    } else {
      assert text == body;
    }
  }

  lemma {:induction false} PointIndexAt(s: string, i: nat)
    requires i <= |s| && (forall j :: 0 <= j < i ==> s[j] != '.') && (i < |s| ==> s[i] == '.')
    ensures PointIndex(s) == i
  {
    if i > 0 {
      assert forall j :: 0 <= j < i - 1 ==> s[1..][j] == s[j + 1];
      PointIndexAt(s[1..], i - 1);
    }
  }

  /** `FormatDecimal` cut into its sign, integer digits and fraction digits. */
  lemma FormatDecimalParts(d: Decimal) returns (whole: string, frac: string)
    ensures AllDigits(whole) && AllDigits(frac) && |whole| >= 1 && |frac| == d.scale
    ensures AllDigits(whole + frac) && DigitsValue(whole + frac) == Abs(d.unscaled)
    ensures FormatDecimal(d) == SignText(d.unscaled < 0) + PlainBody(whole, frac, d.scale > 0)
  {
    var digits := DecimalDigits(d);
    var point := |digits| - d.scale;
    DecimalDigitsValue(d);
    DigitsSplit(digits, point);
    FormatDecimalText(d);
    whole, frac := digits[..point], digits[point..];
  }

  /** Both sides of a cut through a digit string are digit strings that make it up again. */
  lemma DigitsSplit(digits: string, point: nat)
    requires AllDigits(digits) && point <= |digits|
    ensures AllDigits(digits[..point]) && AllDigits(digits[point..])
    ensures digits[..point] + digits[point..] == digits
  {
    assert forall i :: 0 <= i < point ==> digits[..point][i] == digits[i];
    assert forall i :: 0 <= i < |digits| - point ==> digits[point..][i] == digits[point + i];
  }

  lemma FormatDecimalText(d: Decimal)
    ensures var digits := DecimalDigits(d);
      var point := |digits| - d.scale;
      FormatDecimal(d) == SignText(d.unscaled < 0) + PlainBody(digits[..point], digits[point..], d.scale > 0)
  {
    var digits := DecimalDigits(d);
    var point := |digits| - d.scale;
    var sign := SignText(d.unscaled < 0);
    if d.scale == 0 {
      assert digits[..point] == digits && digits[point..] == [];
      assert PlainBody(digits[..point], digits[point..], false) == digits;
    } else {
      assert sign + digits[..point] + "." + digits[point..] == sign + (digits[..point] + ("." + digits[point..]));
    }
  }

  /** A decimal is read back exactly from its plain text. */
  lemma DecimalRoundTrip(d: Decimal)
    ensures ParseDecimal(FormatDecimal(d)) == Some(d)
  {
    var whole, frac := FormatDecimalParts(d);
    ParsePlainDecimal(SignText(d.unscaled < 0), whole, frac, d.scale > 0);
  }
}
