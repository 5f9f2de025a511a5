/** Python's `float()` on text and `str()` on a float, for the values this
    program produces. A float is modelled as an exact rational magnitude with
    a separate sign bit, so that Python's negative zero is representable. */
module PyFloat {
  import opened Wrappers
  import opened Text

  type NonNegReal = x: real | x >= 0.0

  /** A float value: `neg` is the IEEE sign bit, `mag` the exact magnitude. */
  datatype Float = Float(neg: bool, mag: NonNegReal) {
    function Value(): real {
      var m: real := mag;
      if neg then -m else m
    }
  }

  /** A float that is a whole number of hundredths, as every rounded result
      of the scaler is. */
  datatype Hundredths = Hundredths(neg: bool, count: nat) {
    function AsFloat(): Float {
      Float(neg, count as real / 100.0)
    }
  }

  function Pow10(k: nat): (p: nat)
    ensures p >= 1
  {
    if k == 0 then 1 else 10 * Pow10(k - 1)
  }

  function DigitValue(c: char): (d: nat)
    requires IsDigit(c)
    ensures d < 10
  {
    c as int - '0' as int
  }

  function DigitChar(d: nat): (c: char)
    requires d < 10
    ensures IsDigit(c) && DigitValue(c) == d
  {
    ('0' as int + d) as char
  }

  /** The number a string of decimal digits denotes (0 for the empty string). */
  function DigitsValue(s: string): nat
    requires AllDigits(s)
  {
    if |s| == 0 then 0 else DigitsValue(s[..|s| - 1]) * 10 + DigitValue(s[|s| - 1])
  }

  lemma {:induction false} DigitsValueConcat(a: string, b: string)
    requires AllDigits(a) && AllDigits(b)
    ensures AllDigits(a + b)
    ensures DigitsValue(a + b) == DigitsValue(a) * Pow10(|b|) + DigitsValue(b)
  {
    if |b| == 0 {
      assert a + b == a;
    } else {
      var b' := b[..|b| - 1];
      var last := DigitValue(b[|b| - 1]);
      assert (a + b)[..|a + b| - 1] == a + b';
      assert (a + b)[|a + b| - 1] == b[|b| - 1];
      DigitsValueConcat(a, b');
      ShiftDigit(DigitsValue(a), Pow10(|b'|), DigitsValue(b'), last);
    }
  }

  /** Appending a digit multiplies the value so far by ten. */
  lemma ShiftDigit(x: nat, p: nat, y: nat, d: nat)
    ensures (x * p + y) * 10 + d == x * (p * 10) + (y * 10 + d)
  {
  }

  /** The canonical decimal numeral of `n`: no leading zero except for 0. */
  function NatToDigits(n: nat): (s: string)
    ensures |s| >= 1 && AllDigits(s)
    ensures DigitsValue(s) == n
    ensures s[0] == '0' ==> s == "0"
  {
    if n < 10 then [DigitChar(n)]
    else
      var s := NatToDigits(n / 10) + [DigitChar(n % 10)];
      assert s[..|s| - 1] == NatToDigits(n / 10);
      s
  }

  /** Value of a numeral with `whole` digits before the point and `frac`
      digits after it. */
  function DecimalValue(whole: string, frac: string): NonNegReal
    requires AllDigits(whole) && AllDigits(frac)
  {
    DigitsValue(whole + frac) as real / Pow10(|frac|) as real
  }

  /** The unsigned part of Python's float syntax without exponent: `d+`,
      `d+.`, `.d+` or `d+.d+`. */
  function ParseMagnitude(b: string): (r: Result<NonNegReal>)
    ensures r.Ok? ==> |b| > 0
  {
    match IndexOf(b, ".")
    case None =>
      if |b| > 0 && AllDigits(b) then Ok(DigitsValue(b) as real) else Err(ValueError)
    case Some(i) =>
      var whole := b[..i];
      var frac := b[i + 1..];
      if AllDigits(whole) && AllDigits(frac) && |whole| + |frac| > 0
      then Ok(DecimalValue(whole, frac))
      else Err(ValueError)
  }

  /** The text carries a minus sign. */
  predicate Negative(t: string) {
    |t| > 0 && t[0] == '-'
  }

  /** The text without its sign, if it has one. */
  function Unsigned(t: string): string {
    if |t| > 0 && (t[0] == '-' || t[0] == '+') then t[1..] else t
  }

  /** The whitespace `float()` removes around its argument: the C locale's
      `isspace`, tab through carriage return and space. The separators
      0x1C-0x1F, which `str.strip()` and `\s` treat as whitespace, are not
      among them. */
  predicate IsFloatSpace(c: char) {
    9 <= c as int <= 13 || c == ' '
  }

  predicate AllFloatSpace(s: string) {
    forall k :: 0 <= k < |s| ==> IsFloatSpace(s[k])
  }

  /** No `float()` whitespace at either end. */
  predicate FloatTrimmed(s: string) {
    |s| == 0 || (!IsFloatSpace(s[0]) && !IsFloatSpace(s[|s| - 1]))
  }

  /** The stripping `float()` does before it parses. */
  function FloatStrip(s: string): (t: string)
    ensures FloatTrimmed(t) && |t| <= |s|
    decreases |s|
  {
    if |s| > 0 && IsFloatSpace(s[0]) then FloatStrip(s[1..])
    else if |s| > 0 && IsFloatSpace(s[|s| - 1]) then FloatStrip(s[..|s| - 1])
    else s
  }

  /** `float()` whitespace around a text that has none at its ends is
      removed, and nothing else is. */
  lemma {:induction false} FloatStripPadded(pre: string, t: string, post: string)
    requires AllFloatSpace(pre) && AllFloatSpace(post) && FloatTrimmed(t)
    ensures FloatStrip(pre + t + post) == t
    decreases |pre| + |post|
  {
    var s := pre + t + post;
    if |pre| > 0 {
      assert s[0] == pre[0] && s[1..] == pre[1..] + t + post;
      assert AllFloatSpace(pre[1..]) by {
        forall k | 0 <= k < |pre| - 1 ensures IsFloatSpace(pre[1..][k]) { assert pre[1..][k] == pre[k + 1]; }
      }
      FloatStripPadded(pre[1..], t, post);
    } else if |post| > 0 && |t| == 0 {
      assert s == post && s[1..] == [] + t + post[1..];
      assert AllFloatSpace(post[1..]) by {
        forall k | 0 <= k < |post| - 1 ensures IsFloatSpace(post[1..][k]) { assert post[1..][k] == post[k + 1]; }
      }
      FloatStripPadded([], t, post[1..]);
    } else if |post| > 0 {
      var post' := post[..|post| - 1];
      assert s[0] == t[0] && s[|s| - 1] == post[|post| - 1];
      assert s[..|s| - 1] == [] + t + post';
      assert AllFloatSpace(post') by {
        forall k | 0 <= k < |post'| ensures IsFloatSpace(post'[k]) { assert post'[k] == post[k]; }
      }
      FloatStripPadded([], t, post');
    } else {
      assert s == t;
    }
  }

  /** Python's `float(s)` for decimal text: `float()` whitespace around it
      is ignored, an optional sign sets the sign bit, anything else raises
      ValueError. */
  function ParseFloat(s: string): (r: Result<Float>)
    ensures r.Ok? ==> |FloatStrip(s)| > 0
    ensures r.Ok? ==> r.value.neg == Negative(FloatStrip(s))
  {
    var t := FloatStrip(s);
    var mag :- ParseMagnitude(Unsigned(t));
    Ok(Float(Negative(t), mag))
  }

  /** Digits with at most one point and at least one digit: the unsigned
      numerals `float()` accepts (exponents aside). */
  predicate Numeral(b: string) {
    && |b| > 0 && b != "."
    && (forall k :: 0 <= k < |b| ==> IsDigit(b[k]) || b[k] == '.')
    && (forall i, j :: 0 <= i < j < |b| && b[i] == '.' ==> b[j] != '.')
  }

  /** An optional sign, then a numeral. */
  predicate FloatText(t: string) {
    Numeral(t) || (|t| > 0 && (t[0] == '-' || t[0] == '+') && Numeral(t[1..]))
  }

  /** `float()` accepts exactly the texts that, once stripped of `float()`
      whitespace, are an optional sign and a numeral. */
  lemma ParseFloatAccepts(s: string)
    ensures ParseFloat(s).Ok? <==> FloatText(FloatStrip(s))
  {
    var t := FloatStrip(s);
    MagnitudeAccepts(Unsigned(t));
    if |t| > 0 && (t[0] == '-' || t[0] == '+') {
      assert !Numeral(t) by { assert !(IsDigit(t[0]) || t[0] == '.'); }
    }
  }

  lemma MagnitudeAccepts(b: string)
    ensures ParseMagnitude(b).Ok? <==> Numeral(b)
  {
    match IndexOf(b, ".")
    case None =>
      NoPointDigits(b);
    case Some(i) =>
      PointDigits(b, i);
  }

  /** Without a point, a numeral is a non-empty run of digits. */
  lemma NoPointDigits(b: string)
    requires IndexOf(b, ".").None?
    ensures ParseMagnitude(b).Ok? <==> Numeral(b)
  {
    forall k | 0 <= k < |b| ensures b[k] != '.' {
      assert !OccursAt(b, ".", k);
      assert b[k..k + 1] == [b[k]];
    }
    if |b| > 0 && AllDigits(b) {
      assert b != "." by { assert IsDigit(b[0]); }
    }
  }

  /** With a first point at `i`, a numeral has digits on both sides of it
      and at least one digit in all. */
  lemma PointDigits(b: string, i: nat)
    requires IndexOf(b, ".") == Some(i)
    ensures ParseMagnitude(b).Ok? <==> Numeral(b)
  {
    assert b[i] == '.' by { assert b[i..i + 1] == "."; }
    forall k | 0 <= k < i ensures b[k] != '.' {
      assert !OccursAt(b, ".", k);
      assert b[k..k + 1] == [b[k]];
    }
    var whole := b[..i];
    var frac := b[i + 1..];
    if Numeral(b) {
      assert AllDigits(whole) by {
        forall k | 0 <= k < |whole| ensures IsDigit(whole[k]) { assert whole[k] == b[k]; }
      }
      assert AllDigits(frac) by {
        forall k | 0 <= k < |frac| ensures IsDigit(frac[k]) { assert frac[k] == b[i + 1 + k]; }
      }
      assert |b| != 1;
    }
    if AllDigits(whole) && AllDigits(frac) && |whole| + |frac| > 0 {
      forall k | 0 <= k < |b| ensures IsDigit(b[k]) || b[k] == '.' {
        if k < i { assert b[k] == whole[k]; }
        else if k > i { assert b[k] == frac[k - i - 1]; }
      }
      forall j | 0 <= j < |b| && j != i ensures b[j] != '.' {
        if j < i { assert b[j] == whole[j]; }
        else { assert b[j] == frac[j - i - 1]; }
      }
    }
  }

  /** An accepted text with a point reads as the numeral it spells, with
      the sign bit of its sign. */
  lemma ParseFloatPoint(s: string, sign: string, whole: string, frac: string)
    requires sign == "" || sign == "-" || sign == "+"
    requires AllDigits(whole) && AllDigits(frac) && |whole| + |frac| > 0
    requires FloatStrip(s) == sign + whole + "." + frac
    ensures ParseFloat(s) == Ok(Float(sign == "-", DecimalValue(whole, frac)))
  {
    var body := whole + "." + frac;
    SignedJoin(sign, whole, frac);
    assert body[0] != '-' && body[0] != '+' by {
      assert body[0] == if |whole| == 0 then '.' else whole[0];
    }
    SignOff(sign, body);
    ParseUnsignedDecimal(whole, frac);
    ParseFloatFrom(s, sign + body, DecimalValue(whole, frac));
  }

  /** An accepted text without a point reads as the whole number it spells,
      with the sign bit of its sign. */
  lemma ParseFloatWhole(s: string, sign: string, whole: string)
    requires sign == "" || sign == "-" || sign == "+"
    requires |whole| > 0 && AllDigits(whole)
    requires FloatStrip(s) == sign + whole
    ensures ParseFloat(s) == Ok(Float(sign == "-", DigitsValue(whole) as real))
  {
    assert IsDigit(whole[0]);
    SignOff(sign, whole);
    WholeMagnitude(whole);
    ParseFloatFrom(s, sign + whole, DigitsValue(whole) as real);
  }

  /** Every sign-and-digits text reads back as the number it spells. */
  lemma ParseDecimalText(sign: string, whole: string, frac: string)
    requires sign == "" || sign == "-" || sign == "+"
    requires AllDigits(whole) && AllDigits(frac) && |whole| > 0
    ensures ParseFloat(sign + whole + "." + frac) == Ok(Float(sign == "-", DecimalValue(whole, frac)))
  {
    var body := whole + "." + frac;
    SignedJoin(sign, whole, frac);
    ParseUnsignedDecimal(whole, frac);
    assert IsDigit(body[0]) && !IsFloatSpace(body[|body| - 1]) by {
      assert body[0] == whole[0];
      assert body[|body| - 1] == if |frac| == 0 then '.' else frac[|frac| - 1];
    }
    SignedText(sign, body);
    ParseFloatFrom(sign + body, sign + body, DecimalValue(whole, frac));
  }

  lemma SignedJoin(sign: string, whole: string, frac: string)
    ensures sign + whole + "." + frac == sign + (whole + "." + frac)
  {
  }

  /** `float()` reads the stripped text as a sign and a magnitude. */
  lemma ParseFloatFrom(s: string, t: string, mag: real)
    requires FloatStrip(s) == t && ParseMagnitude(Unsigned(t)) == Ok(mag)
    ensures ParseFloat(s) == Ok(Float(Negative(t), mag))
  {
  }

  /** A sign, if any, in front of a text that starts with a digit and
      does not end in whitespace: nothing to strip, and the sign comes off
      whole. */
  lemma SignedText(sign: string, body: string)
    requires sign == "" || sign == "-" || sign == "+"
    requires |body| > 0 && IsDigit(body[0]) && !IsFloatSpace(body[|body| - 1])
    ensures FloatStrip(sign + body) == sign + body
    ensures Unsigned(sign + body) == body && Negative(sign + body) == (sign == "-")
  {
    var s := sign + body;
    assert s[|s| - 1] == body[|body| - 1];
    assert s[0] == if |sign| == 0 then body[0] else sign[0];
    SignOff(sign, body);
  }

  /** The sign comes off a signed text whole. */
  lemma SignOff(sign: string, body: string)
    requires sign == "" || sign == "-" || sign == "+"
    requires |body| > 0 && body[0] != '-' && body[0] != '+'
    ensures Unsigned(sign + body) == body && Negative(sign + body) == (sign == "-")
  {
    if |sign| == 0 {
      assert sign + body == body;
    } else {
      assert (sign + body)[1..] == body;
    }
  }

  lemma ParseUnsignedDecimal(whole: string, frac: string)
    requires AllDigits(whole) && AllDigits(frac) && |whole| + |frac| > 0
    ensures ParseMagnitude(whole + "." + frac) == Ok(DecimalValue(whole, frac))
  {
    var body := whole + "." + frac;
    FirstPoint(whole, frac);
    assert body[..|whole|] == whole && body[|whole| + 1..] == frac;
  }

  /** A plain run of digits reads as the whole number it spells. */
  lemma ParseWhole(s: string)
    requires |s| > 0 && AllDigits(s)
    ensures ParseFloat(s) == Ok(Float(false, DigitsValue(s) as real))
  {
    assert FloatTrimmed(s) by { assert IsDigit(s[0]) && IsDigit(s[|s| - 1]); }
    assert "" + s == s;
    ParseFloatWhole(s, "", s);
  }

  lemma WholeMagnitude(s: string)
    requires |s| > 0 && AllDigits(s)
    ensures ParseMagnitude(s) == Ok(DigitsValue(s) as real)
  {
    forall j: nat ensures !OccursAt(s, ".", j) {
      if j < |s| { assert s[j..j + 1] == [s[j]]; }
    }
    assert IndexOf(s, ".") == None;
  }

  /** The point after an all-digit prefix is the first point of the text. */
  lemma FirstPoint(whole: string, frac: string)
    requires AllDigits(whole)
    ensures IndexOf(whole + "." + frac, ".") == Some(|whole|)
  {
    var b := whole + "." + frac;
    assert OccursAt(b, ".", |whole|) by { assert b[|whole|..|whole| + 1] == "."; }
    assert forall j: nat :: j < |whole| ==> !OccursAt(b, ".", j) by {
      forall j: nat | j < |whole| ensures !OccursAt(b, ".", j) {
        assert b[j..j + 1] == [whole[j]];
      }
    }
  }

  /** The fraction digits Python prints for `f` hundredths: trailing zeros
      dropped, but at least one digit kept. */
  function FractionDigits(f: nat): (s: string)
    requires f < 100
    ensures AllDigits(s) && 1 <= |s| <= 2
    ensures |s| == 1 ==> DigitsValue(s) * 10 == f
    ensures |s| == 2 ==> DigitsValue(s) == f && s[1] != '0'
  {
    if f % 10 == 0 then
      var s := [DigitChar(f / 10)];
      assert DigitsValue(s) == f / 10 by { assert s[..0] == []; }
      s
    else
      var s := [DigitChar(f / 10), DigitChar(f % 10)];
      assert DigitsValue(s) == f by {
        assert s[..1] == [s[0]];
        assert DigitsValue([s[0]]) == f / 10 by { assert [s[0]][..0] == []; }
      }
      s
  }

  /** Python's `str()` of a float that is a whole number of hundredths
      (magnitudes below 1e16): sign, integer part, point, shortest fraction. */
  function Render(h: Hundredths): (s: string)
    ensures Trimmed(s) && |s| >= 3
    ensures IsDigit(s[|s| - 1])
    ensures s[0] == '-' <==> h.neg
  {
    var whole := NatToDigits(h.count / 100);
    var s := (if h.neg then "-" else "") + whole + "." + FractionDigits(h.count % 100);
    assert s[|s| - 1] == FractionDigits(h.count % 100)[|FractionDigits(h.count % 100)| - 1];
    assert !h.neg ==> s[0] == whole[0];
    s
  }

  /** Round trip: `float(str(x)) == x` for every rounded result, sign bit
      included. */
  lemma ParseRender(h: Hundredths)
    ensures ParseFloat(Render(h)) == Ok(h.AsFloat())
  {
    RenderParts(h);
    ParseParts(h.neg, h.count);
  }

  lemma ParseParts(neg: bool, n: nat)
    ensures ParseFloat((if neg then "-" else "") + NatToDigits(n / 100) + "." + FractionDigits(n % 100))
            == Ok(Hundredths(neg, n).AsFloat())
  {
    var whole := NatToDigits(n / 100);
    var frac := FractionDigits(n % 100);
    ParseDecimalText(if neg then "-" else "", whole, frac);
    RenderedValue(n, whole, frac);
    assert Hundredths(neg, n).AsFloat() == Float(neg, DecimalValue(whole, frac));
  }

  lemma RenderParts(h: Hundredths)
    ensures Render(h) == (if h.neg then "-" else "") + NatToDigits(h.count / 100) + "." + FractionDigits(h.count % 100)
  {
  }

  /** `str()` of a rounded result in canonical form: a minus sign exactly
      for a set sign bit, the whole part without leading zeros, a point, and
      one or two fraction digits with no trailing zero after the first. */
  lemma RenderForm(h: Hundredths) returns (whole: string, frac: string)
    ensures Render(h) == (if h.neg then "-" else "") + whole + "." + frac
    ensures |whole| >= 1 && AllDigits(whole) && DigitsValue(whole) == h.count / 100
    ensures whole[0] == '0' ==> whole == "0"
    ensures AllDigits(frac) && 1 <= |frac| <= 2
    ensures |frac| == 1 ==> DigitsValue(frac) * 10 == h.count % 100
    ensures |frac| == 2 ==> DigitsValue(frac) == h.count % 100 && frac[1] != '0'
  {
    whole := NatToDigits(h.count / 100);
    frac := FractionDigits(h.count % 100);
    RenderParts(h);
  }

  lemma RenderedValue(n: nat, whole: string, frac: string)
    requires whole == NatToDigits(n / 100) && frac == FractionDigits(n % 100)
    ensures DecimalValue(whole, frac) == n as real / 100.0
  {
    var q := n / 100;
    var d := DigitsValue(frac);
    DigitsValueConcat(whole, frac);
    if |frac| == 1 {
      assert Pow10(|frac|) == 10 by { assert Pow10(0) == 1; }
      TenthsValue(n, q, d, DigitsValue(whole + frac));
    } else {
      assert Pow10(|frac|) == 100 by { assert Pow10(1) == 10; }
      HundredthsValue(n, q, d, DigitsValue(whole + frac));
    }
  }

  lemma HundredthsValue(n: nat, q: nat, d: nat, dv: nat)
    requires q == n / 100 && d == n % 100 && dv == q * 100 + d
    ensures dv as real / 100.0 == n as real / 100.0
  {
  }

  lemma TenthsValue(n: nat, q: nat, d: nat, dv: nat)
    requires q == n / 100 && d * 10 == n % 100 && dv == q * 10 + d
    ensures dv as real / 10.0 == n as real / 100.0
  {
    assert dv * 10 == n;
  }

  /** Rendering is injective: distinct rounded values print differently. */
  lemma RenderInjective(a: Hundredths, b: Hundredths)
    requires Render(a) == Render(b)
    ensures a == b
  {
    ParseRender(a);
    ParseRender(b);
    assert a.count as real / 100.0 == b.count as real / 100.0;
  }
}
