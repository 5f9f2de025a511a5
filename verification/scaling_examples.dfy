/** Worked instances of `scale_quantity` at serving size 8 and 2, one per
    shape of token. Each example takes its token as a parameter fixed by its
    precondition, so that the verifier reasons from the general lemmas
    rather than by evaluating the text character by character. */
module ScalingExamples {
  import opened Wrappers
  import opened Text
  import opened PyFloat
  import opened Rounding
  import opened Scaling

  /** "1/2" at serving size 8 is one half doubled: "1.0", under either rule. */
  lemma HalfDoubled(q: string, rule: TieRule)
    requires q == "1/2"
    ensures ScaleQuantity(q, 8, rule) == Ok("1.0")
  {
    SplitAt(q, "/", 1);
    var one := ParseDigit(q[..1], 1);
    var two := ParseDigit(q[2..], 2);
    var half := Float(false, 0.5);
    assert Divide(one, two) == Ok(half);
    var h := Hundredths(false, 100);
    assert Abs(8) as real / 4.0 == 2.0;
    RoundedTo(half, 8, rule, h);
    RenderWhole(h, 1, "1.0");
    QuotientText(q, 8, rule, q[..1], q[2..], one, two, half, h, "1.0");
  }

  /** How a quotient token scales, once its parts, their values, the rounded
      result and its text are known. */
  lemma QuotientText(q: string, serving: int, rule: TieRule, a: string, b: string,
                     x: Float, y: Float, ratio: Float, h: Hundredths, t: string)
    requires serving != DefaultServingSize
    requires SplitOn(q, "/") == [a, b]
    requires ParseFloat(a) == Ok(x) && ParseFloat(b) == Ok(y) && Divide(x, y) == Ok(ratio)
    requires RoundScaled(ratio, Multiplier(serving), rule) == h
    requires Render(h) == t
    ensures ScaleQuantity(q, serving, rule) == Ok(t)
  {
    assert q == a + "/" + b;
  }

  /** Rounding a product that is already a whole number of hundredths
      leaves it unchanged. */
  lemma RoundedTo(x: Float, serving: int, rule: TieRule, h: Hundredths)
    requires h.neg == (x.neg != (serving < 0))
    requires x.mag * (Abs(serving) as real / 4.0) == h.count as real / 100.0
    ensures RoundScaled(x, Multiplier(serving), rule) == h
  {
    var p := Times(x, Multiplier(serving));
    assert p.mag * 100.0 == h.count as real;
    RoundingUnique(p.mag, rule, h.count);
  }

  /** A one-digit token reads as its digit. */
  lemma ParseDigit(s: string, d: nat) returns (x: Float)
    requires |s| == 1 && IsDigit(s[0]) && d == s[0] as int - '0' as int
    ensures ParseFloat(s) == Ok(x) && x == Float(false, d as real)
  {
    ParseWhole(s);
    assert s[..0] == "";
    x := Float(false, d as real);
  }

  /** A token holding `sep` once, whose first character appears nowhere
      else, splits at it into exactly two parts. */
  lemma SplitAt(q: string, sep: string, i: nat)
    requires |sep| > 0 && OccursAt(q, sep, i)
    requires forall k :: 0 <= k < |q| && !(i <= k < i + |sep|) ==> q[k] != sep[0]
    ensures SplitOn(q, sep) == [q[..i], q[i + |sep|..]]
  {
    var rest := q[i + |sep|..];
    assert SplitOn(rest, sep) == [rest] by {
      assert forall k :: 0 <= k < |rest| ==> rest[k] != sep[0] by {
        forall k | 0 <= k < |rest| ensures rest[k] != sep[0] { assert rest[k] == q[i + |sep| + k]; }
      }
      NoSpaceNoSep(rest, sep);
    }
    FirstAt(q, sep, i);
  }

  lemma FirstAt(q: string, sep: string, i: nat)
    requires |sep| > 0 && OccursAt(q, sep, i)
    requires forall k :: 0 <= k < i ==> q[k] != sep[0]
    ensures IndexOf(q, sep) == Some(i)
  {
    assert forall j: nat :: j < i ==> !OccursAt(q, sep, j) by {
      forall j: nat | j < i ensures !OccursAt(q, sep, j) {
        if j + |sep| <= |q| { assert q[j..j + |sep|][0] == q[j]; }
      }
    }
  }

  /** A whole number of units prints with a single zero after the point. */
  lemma RenderWhole(h: Hundredths, n: nat, t: string)
    requires n < 10 && h == Hundredths(false, 100 * n)
    requires |t| == 3 && t[0] == DigitChar(n) && t[1] == '.' && t[2] == '0'
    ensures Render(h) == t
  {
    assert h.count / 100 == n && h.count % 100 == 0;
    var r := Render(h);
    assert r == [DigitChar(n)] + "." + [DigitChar(0)];
    assert r[0] == t[0] && r[1] == t[1] && r[2] == t[2];
  }

  /** "1/0" raises ZeroDivisionError at any serving size but the default. */
  lemma ZeroDenominator(q: string, serving: int, rule: TieRule)
    requires q == "1/0" && serving != DefaultServingSize
    ensures ScaleQuantity(q, serving, rule) == Err(ZeroDivisionError)
  {
    SplitAt(q, "/", 1);
    var one := ParseDigit(q[..1], 1);
    var zero := ParseDigit(q[2..], 0);
    ScaleFraction(q, serving, rule, q[..1], q[2..]);
  }

  /** "1 - 2" at serving size 8 scales both ends: "2.0 - 4.0". */
  lemma RangeDoubled(q: string, rule: TieRule)
    requires q == "1 - 2"
    ensures ScaleQuantity(q, 8, rule) == Ok("2.0 - 4.0")
  {
    var t := "2.0 - 4.0";
    Rejoin(t, 3);
    DigitRangeDoubled(q, rule, t[..3], t[6..]);
  }

  /** A range of two one-digit numbers below 5, doubled. */
  lemma DigitRangeDoubled(q: string, rule: TieRule, tx: string, ty: string)
    requires |q| == 5 && IsDigit(q[0]) && q[1] == ' ' && q[2] == '-' && q[3] == ' ' && IsDigit(q[4])
    requires q[0] < '5' && q[4] < '5'
    requires |tx| == 3 && tx[0] == DigitChar(2 * DigitValue(q[0])) && tx[1] == '.' && tx[2] == '0'
    requires |ty| == 3 && ty[0] == DigitChar(2 * DigitValue(q[4])) && ty[1] == '.' && ty[2] == '0'
    ensures ScaleQuantity(q, 8, rule) == Ok(tx + " - " + ty)
  {
    assert OccursAt(q, " - ", 1) by { assert q[1..4] == " - "; }
    SplitAt(q, " - ", 1);
    NoSpaceNoSep(q, "/");
    var a, b := q[..1], q[4..];
    var x := ParseDigit(a, DigitValue(q[0]));
    var y := ParseDigit(b, DigitValue(q[4]));
    var hx := Doubled(x, DigitValue(q[0]), rule);
    var hy := Doubled(y, DigitValue(q[4]), rule);
    RenderWhole(hx, 2 * DigitValue(q[0]), tx);
    RenderWhole(hy, 2 * DigitValue(q[4]), ty);
    RangeTextOf(q, 8, rule, a, b, x, y, hx, hy, tx, ty);
  }

  /** A text with " - " at index `i` is its two sides joined by " - ". */
  lemma Rejoin(t: string, i: nat)
    requires i + 3 <= |t| && t[i] == ' ' && t[i + 1] == '-' && t[i + 2] == ' '
    ensures t[..i] + " - " + t[i + 3..] == t
  {
  }

  /** Doubling a whole number: serving size 8 is twice the default. */
  lemma Doubled(x: Float, n: nat, rule: TieRule) returns (h: Hundredths)
    requires x == Float(false, n as real)
    ensures RoundScaled(x, Multiplier(8), rule) == h && h == Hundredths(false, 200 * n)
  {
    h := Hundredths(false, 200 * n);
    var p := Times(x, Multiplier(8));
    assert p.mag == n as real * 2.0;
    assert 100.0 * p.mag == (200 * n) as real;
    RoundingUnique(p.mag, rule, h.count);
  }

  /** How a range token scales, once its ends, their values, the rounded
      ends and their texts are known. */
  lemma RangeTextOf(q: string, serving: int, rule: TieRule, a: string, b: string,
                    x: Float, y: Float, hx: Hundredths, hy: Hundredths, tx: string, ty: string)
    requires serving != DefaultServingSize
    requires !Contains(q, "/") && SplitOn(q, " - ") == [a, b]
    requires ParseFloat(a) == Ok(x) && ParseFloat(b) == Ok(y)
    requires RoundScaled(x, Multiplier(serving), rule) == hx && Render(hx) == tx
    requires RoundScaled(y, Multiplier(serving), rule) == hy && Render(hy) == ty
    ensures ScaleQuantity(q, serving, rule) == Ok(tx + " - " + ty)
  {
    assert q == a + " - " + b;
  }

  /** How a plain token scales, once its value, the rounded result and its
      text are known. */
  lemma PlainTextOf(q: string, serving: int, rule: TieRule, x: Float, h: Hundredths, t: string)
    requires serving != DefaultServingSize
    requires !Contains(q, "/") && !Contains(q, " - ")
    requires ParseFloat(q) == Ok(x)
    requires RoundScaled(x, Multiplier(serving), rule) == h && Render(h) == t
    ensures ScaleQuantity(q, serving, rule) == Ok(t)
  {
    assert |q| > 0;
  }

  /** "4" at serving size 8 is "8.0". */
  lemma WholeDoubled(q: string, rule: TieRule, t: string)
    requires q == "4" && t == "8.0"
    ensures ScaleQuantity(q, 8, rule) == Ok(t)
  {
    NoSpaceNoSep(q, "/");
    NoSpaceNoSep(q, " - ");
    var four := ParseDigit(q, 4);
    assert Abs(8) as real / 4.0 == 2.0;
    RoundedTo(four, 8, rule, Hundredths(false, 800));
    RenderWhole(Hundredths(false, 800), 8, t);
    PlainTextOf(q, 8, rule, four, Hundredths(false, 800), t);
  }

  /** "0.25" at serving size 2 is exactly 0.125, a tie: Decimal's
      ROUND_HALF_UP prints "0.13" where builtin round prints "0.12". */
  lemma TieHalved(q: string, rule: TieRule, t: string)
    requires q == "0.25"
    requires t == (match rule case HalfUp => "0.13" case HalfEven => "0.12")
    ensures ScaleQuantity(q, 2, rule) == Ok(t)
  {
    NoSpaceNoSep(q, "/");
    NoSpaceNoSep(q, " - ");
    var x := ParseQuarter(q);
    var n: nat := if rule == HalfUp then 13 else 12;
    var h := Hundredths(false, n);
    assert RoundScaled(x, Multiplier(2), rule) == h by {
      assert Abs(2) as real / 4.0 == 0.5;
      var p := Times(x, Multiplier(2));
      assert p.mag == 0.125;
      RoundingUnique(p.mag, rule, n);
    }
    RenderCents(h, t);
    PlainTextOf(q, 2, rule, x, h, t);
  }

  lemma ParseQuarter(q: string) returns (x: Float)
    requires q == "0.25"
    ensures ParseFloat(q) == Ok(x) && x == Float(false, 0.25)
  {
    var whole := q[..1];
    var frac := q[2..];
    assert q == "" + whole + "." + frac;
    ParseDecimalText("", whole, frac);
    ThreeDigits(whole + frac);
    x := Float(false, 0.25);
  }

  /** "0.35" at serving size 2 is exactly 0.175, a tie that both rules round
      up to "0.18". Binary doubles hold 0.35 as slightly less, which moves
      the product below the tie. */
  lemma ExactTie(q: string, rule: TieRule)
    requires q == "0.35"
    ensures ScaleQuantity(q, 2, rule) == Ok("0.18")
  {
    NoSpaceNoSep(q, "/");
    NoSpaceNoSep(q, " - ");
    var x := ParseThirtyFive(q);
    var h := Hundredths(false, 18);
    assert RoundScaled(x, Multiplier(2), rule) == h by {
      assert Abs(2) as real / 4.0 == 0.5;
      var p := Times(x, Multiplier(2));
      assert p.mag == 0.175;
      RoundingUnique(p.mag, rule, 18);
    }
    RenderCents(h, "0.18");
    PlainTextOf(q, 2, rule, x, h, "0.18");
  }

  lemma ParseThirtyFive(q: string) returns (x: Float)
    requires q == "0.35"
    ensures ParseFloat(q) == Ok(x) && x == Float(false, 0.35)
  {
    var whole := q[..1];
    var frac := q[2..];
    assert q == "" + whole + "." + frac;
    ParseDecimalText("", whole, frac);
    ThreeDigits(whole + frac);
    x := Float(false, 0.35);
  }

  lemma ThreeDigits(s: string)
    requires |s| == 3 && AllDigits(s)
    ensures DigitsValue(s) == 100 * DigitValue(s[0]) + 10 * DigitValue(s[1]) + DigitValue(s[2])
  {
    assert s[..2][..1] == s[..1];
    assert s[..1][..0] == [];
    assert DigitsValue(s[..1]) == DigitValue(s[0]);
    assert DigitsValue(s[..2]) == 10 * DigitValue(s[0]) + DigitValue(s[1]);
  }

  /** A count of hundredths below one unit, with two fraction digits. */
  lemma RenderCents(h: Hundredths, t: string)
    requires !h.neg && 10 <= h.count < 100 && h.count % 10 != 0
    requires |t| == 4 && t[0] == '0' && t[1] == '.'
    requires t[2] == DigitChar(h.count / 10) && t[3] == DigitChar(h.count % 10)
    ensures Render(h) == t
  {
    var r := Render(h);
    assert r == [DigitChar(0)] + "." + [DigitChar(h.count / 10), DigitChar(h.count % 10)];
    assert r[0] == t[0] && r[1] == t[1] && r[2] == t[2] && r[3] == t[3];
  }

  /** The separator 0x1C is whitespace to `str.strip()` and to `\s`, so the
      splitter can leave it inside a quotient token, but `float()` does not
      strip it: "1\x1c/2" raises ValueError. */
  lemma SeparatorInQuotient(q: string, serving: int, rule: TieRule)
    requires q == "1\U{1c}/2" && serving != DefaultServingSize
    ensures ScaleQuantity(q, serving, rule) == Err(ValueError)
  {
    SplitAt(q, "/", 2);
    var a := q[..2];
    assert ParseFloat(a).Err? by {
      assert FloatStrip(a) == a by { assert FloatTrimmed(a); }
      ParseFloatAccepts(a);
      assert !IsDigit(a[1]) && a[1] != '.';
    }
    ScaleFraction(q, serving, rule, a, q[3..]);
  }

  /** "1-2" is neither a quotient nor a spaced range, and `float()` rejects
      it: ValueError at any serving size but the default. */
  lemma UnspacedRange(q: string, serving: int, rule: TieRule)
    requires q == "1-2" && serving != DefaultServingSize
    ensures ScaleQuantity(q, serving, rule) == Err(ValueError)
  {
    NoSpaceNoSep(q, "/");
    NoSpaceNoSep(q, " - ");
    assert ParseFloat(q).Err? by {
      assert FloatStrip(q) == q by { assert FloatTrimmed(q); }
      assert Unsigned(q) == q;
      NoSpaceNoSep(q, ".");
      assert !AllDigits(q) by { assert !IsDigit(q[1]); }
    }
    ScalePlain(q, serving, rule);
  }
}
