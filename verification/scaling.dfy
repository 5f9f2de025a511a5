/** Serving-size scaling of one quantity token (`scale_quantity` and
    `round_and_scale`). The three copies of the program differ only in the
    tie rule of the final rounding, which is a parameter here. */
module Scaling {
  import opened Wrappers
  import opened Text
  import opened PyFloat
  import opened Rounding

  /** The serving size the scraped recipe is written for. */
  const DefaultServingSize: int := 4

  function Abs(n: int): nat {
    if n < 0 then -n else n
  }

  /** `serving_size / DEFAULT_SERVING_SIZE` under Python's true division: an
      integer quotient is a float whose sign bit is set only for a negative
      serving size (0 / 4 is +0.0). */
  function Multiplier(serving: int): (m: Float)
    ensures m.Value() == serving as real / DefaultServingSize as real
    ensures m.neg <==> serving < 0
  {
    Float(serving < 0, Abs(serving) as real / 4.0)
  }

  /** Float multiplication on exact values: the sign bit of a product is the
      exclusive or of the operands' sign bits, zeros included. */
  function Times(a: Float, b: Float): (r: Float)
    ensures r.Value() == a.Value() * b.Value()
    ensures r.neg == (a.neg != b.neg)
  {
    Float(a.neg != b.neg, a.mag * b.mag)
  }

  /** Float division: dividing by either zero raises ZeroDivisionError;
      otherwise the quotient times the divisor gives back the dividend. */
  function Divide(n: Float, d: Float): (r: Result<Float>)
    ensures r.Err? <==> d.Value() == 0.0
    ensures r.Err? ==> r.error == ZeroDivisionError
    ensures r.Ok? ==> r.value.Value() * d.Value() == n.Value()
    ensures r.Ok? ==> r.value.neg == (n.neg != d.neg)
  {
    if d.mag == 0.0 then Err(ZeroDivisionError)
    else
      var q := Float(n.neg != d.neg, n.mag / d.mag);
      assert q.mag * d.mag == n.mag;
      Ok(q)
  }

  /** `h` is `v` correctly rounded to hundredths under `rule`, with the sign
      bit of `v` kept (Python rounds -0.001 to -0.0). */
  predicate RoundedFrom(h: Hundredths, v: Float, rule: TieRule) {
    h.neg == v.neg && Nearest(v.mag, rule, h.count)
  }

  /** `round_and_scale` (tie rule HalfUp) and `round(operand * multiplier, 2)`
      (tie rule HalfEven): the product rounded once to hundredths, never
      farther than half a hundredth from the exact product. */
  function RoundScaled(operand: Float, multiplier: Float, rule: TieRule): (h: Hundredths)
    ensures RoundedFrom(h, Times(operand, multiplier), rule)
    ensures -0.005 <= h.AsFloat().Value() - operand.Value() * multiplier.Value() <= 0.005
  {
    var p := Times(operand, multiplier);
    var h := Hundredths(p.neg, RoundHundredths(p.mag, rule));
    assert -0.005 <= h.AsFloat().mag - p.mag <= 0.005;
    h
  }

  /** `scale_quantity`: an empty token stays empty, the default serving size
      returns the token untouched, a token with "/" is a quotient, one with
      " - " a range of two numbers, and anything else a single number. */
  function ScaleQuantity(q: string, serving: int, rule: TieRule): (r: Result<string>)
    ensures q == "" ==> r == Ok("")
    ensures serving == DefaultServingSize ==> r == Ok(q)
    ensures r.Err? ==> q != "" && serving != DefaultServingSize
    ensures r.Ok? && q != "" && serving != DefaultServingSize ==>
              Trimmed(r.value) && |r.value| >= 3 && !Contains(r.value, "/")
  {
    if |q| == 0 then Ok("")
    else if serving == DefaultServingSize then Ok(q)
    else
      var m := Multiplier(serving);
      if Contains(q, "/") then
        var parts := SplitOn(q, "/");
        if |parts| != 2 then Err(ValueError)
        else
          var num :- ParseFloat(parts[0]);
          var den :- ParseFloat(parts[1]);
          var ratio :- Divide(num, den);
          RenderPlain(RoundScaled(ratio, m, rule));
          Ok(Render(RoundScaled(ratio, m, rule)))
      else if Contains(q, " - ") then
        var parts := SplitOn(q, " - ");
        if |parts| != 2 then Err(ValueError)
        else
          var lo :- ParseFloat(parts[0]);
          var hi :- ParseFloat(parts[1]);
          var a := Render(RoundScaled(lo, m, rule));
          var b := Render(RoundScaled(hi, m, rule));
          RenderPlain(RoundScaled(lo, m, rule));
          RenderPlain(RoundScaled(hi, m, rule));
          RangeText(a, b);
          Ok(a + " - " + b)
      else
        var x :- ParseFloat(q);
        RenderPlain(RoundScaled(x, m, rule));
        Ok(Render(RoundScaled(x, m, rule)))
  }

  /** `text` prints the exact value `v` rounded to hundredths: reading it
      back with `float()` gives the correctly rounded value of `v`. */
  predicate ReadsAsRounded(text: string, v: Float, rule: TieRule) {
    ParseFloat(text) == Ok(Float(v.neg, RoundHundredths(v.mag, rule) as real / 100.0))
  }

  /** The exact scaled value of an operand: `operand * serving / 4`, with the
      sign bit float multiplication gives it. */
  function ScaledExact(operand: Float, serving: int): Float {
    Float(operand.neg != (serving < 0), operand.mag * (Abs(serving) as real / 4.0))
  }

  /** A printed rounded result reads back as the rounded scaled value. */
  lemma ReadBack(x: Float, serving: int, rule: TieRule)
    ensures ReadsAsRounded(Render(RoundScaled(x, Multiplier(serving), rule)), ScaledExact(x, serving), rule)
  {
    var p := ScaledExact(x, serving);
    var count := RoundHundredths(p.mag, rule);
    var h := RoundScaled(x, Multiplier(serving), rule);
    ScaledRounding(x, serving, rule);
    PrintedAs(h, p.neg, count);
    ReadsAsCount(Render(h), p, rule, count);
  }

  lemma ReadsAsCount(text: string, v: Float, rule: TieRule, count: nat)
    requires v.mag >= 0.0 && count == RoundHundredths(v.mag, rule)
    requires ParseFloat(text) == Ok(Float(v.neg, count as real / 100.0))
    ensures ReadsAsRounded(text, v, rule)
  {
  }

  /** Rounding the product is rounding the exact scaled value once. */
  lemma ScaledRounding(x: Float, serving: int, rule: TieRule)
    ensures var p := ScaledExact(x, serving);
            RoundScaled(x, Multiplier(serving), rule) == Hundredths(p.neg, RoundHundredths(p.mag, rule))
  {
    var m := Multiplier(serving);
    assert m == Float(serving < 0, Abs(serving) as real / 4.0);
    assert Times(x, m) == ScaledExact(x, serving);
  }

  /** A printed count of hundredths reads back as that many hundredths. */
  lemma PrintedAs(h: Hundredths, neg: bool, count: nat)
    requires h == Hundredths(neg, count)
    ensures ParseFloat(Render(h)) == Ok(Float(neg, count as real / 100.0))
  {
    assert h.AsFloat() == Float(neg, count as real / 100.0);
    ParseRender(h);
  }

  /** The quotient case: a token with exactly one "/" scales to the quotient
      of its two numbers times serving / 4, rounded once; a part that is not
      a number raises ValueError and a zero denominator ZeroDivisionError. */
  lemma ScaleFraction(q: string, serving: int, rule: TieRule, a: string, b: string)
    requires serving != DefaultServingSize
    requires SplitOn(q, "/") == [a, b]
    ensures ParseFloat(a).Err? || ParseFloat(b).Err? ==>
              ScaleQuantity(q, serving, rule) == Err(ValueError)
    ensures ParseFloat(a).Ok? && ParseFloat(b).Ok? && ParseFloat(b).value.mag == 0.0 ==>
              ScaleQuantity(q, serving, rule) == Err(ZeroDivisionError)
    ensures ParseFloat(a).Ok? && ParseFloat(b).Ok? && ParseFloat(b).value.mag != 0.0 ==>
              var ratio := Divide(ParseFloat(a).value, ParseFloat(b).value);
              ratio.Ok? && ScaleQuantity(q, serving, rule).Ok?
              && ReadsAsRounded(ScaleQuantity(q, serving, rule).value, ScaledExact(ratio.value, serving), rule)
  {
    assert q == a + "/" + b;
    assert |q| > 0;
    if ParseFloat(a).Ok? && ParseFloat(b).Ok? && ParseFloat(b).value.mag != 0.0 {
      ReadBack(Divide(ParseFloat(a).value, ParseFloat(b).value).value, serving, rule);
    }
  }

  /** Any token with more than one "/" raises ValueError: the unpacking into
      a numerator and a denominator fails whatever the parts are. */
  lemma ScaleTooManySlashes(q: string, serving: int, rule: TieRule)
    requires serving != DefaultServingSize
    requires |SplitOn(q, "/")| > 2
    ensures ScaleQuantity(q, serving, rule) == Err(ValueError)
  {
    assert Contains(q, "/");
  }

  /** A slash-free token with more than one " - " raises ValueError. */
  lemma ScaleTooManyDashes(q: string, serving: int, rule: TieRule)
    requires serving != DefaultServingSize
    requires !Contains(q, "/") && |SplitOn(q, " - ")| > 2
    ensures ScaleQuantity(q, serving, rule) == Err(ValueError)
  {
    assert Contains(q, " - ");
  }

  /** The range case: a slash-free token with exactly one " - " scales each
      end on its own and prints them joined by " - ", so the result splits
      back into the two rounded ends. */
  lemma ScaleRange(q: string, serving: int, rule: TieRule, a: string, b: string)
    requires serving != DefaultServingSize
    requires !Contains(q, "/")
    requires SplitOn(q, " - ") == [a, b]
    ensures ParseFloat(a).Err? || ParseFloat(b).Err? ==>
              ScaleQuantity(q, serving, rule) == Err(ValueError)
    ensures ParseFloat(a).Ok? && ParseFloat(b).Ok? ==>
              var r := ScaleQuantity(q, serving, rule);
              r.Ok? && |SplitOn(r.value, " - ")| == 2
              && ReadsAsRounded(SplitOn(r.value, " - ")[0], ScaledExact(ParseFloat(a).value, serving), rule)
              && ReadsAsRounded(SplitOn(r.value, " - ")[1], ScaledExact(ParseFloat(b).value, serving), rule)
  {
    assert q == a + " - " + b;
    if ParseFloat(a).Ok? && ParseFloat(b).Ok? {
      var m := Multiplier(serving);
      var ha := RoundScaled(ParseFloat(a).value, m, rule);
      var hb := RoundScaled(ParseFloat(b).value, m, rule);
      RenderPlain(ha);
      RenderPlain(hb);
      RangeText(Render(ha), Render(hb));
      ReadBack(ParseFloat(a).value, serving, rule);
      ReadBack(ParseFloat(b).value, serving, rule);
    }
  }

  /** The plain case: a token with neither "/" nor " - " is one number, and
      text `float()` rejects raises ValueError. */
  lemma ScalePlain(q: string, serving: int, rule: TieRule)
    requires q != "" && serving != DefaultServingSize
    requires !Contains(q, "/") && !Contains(q, " - ")
    ensures ParseFloat(q).Err? ==> ScaleQuantity(q, serving, rule) == Err(ValueError)
    ensures ParseFloat(q).Ok? ==>
              ScaleQuantity(q, serving, rule).Ok?
              && ReadsAsRounded(ScaleQuantity(q, serving, rule).value, ScaledExact(ParseFloat(q).value, serving), rule)
  {
    if ParseFloat(q).Ok? {
      ReadBack(ParseFloat(q).value, serving, rule);
    }
  }

  /** A printed float is made of a sign, digits and one point: no space and
      no slash. */
  lemma RenderPlain(h: Hundredths)
    ensures forall k :: 0 <= k < |Render(h)| ==> !IsSpace(Render(h)[k]) && Render(h)[k] != '/'
    ensures !Contains(Render(h), "/") && !Contains(Render(h), " - ")
  {
    var s := Render(h);
    var whole := NatToDigits(h.count / 100);
    var frac := FractionDigits(h.count % 100);
    var sign := if h.neg then "-" else "";
    assert s == sign + whole + "." + frac;
    forall k | 0 <= k < |s| ensures !IsSpace(s[k]) && s[k] != '/' {
      if k < |sign| {
        assert s[k] == '-';
      } else if k < |sign| + |whole| {
        assert s[k] == whole[k - |sign|];
      } else if k == |sign| + |whole| {
        assert s[k] == '.';
      } else {
        assert s[k] == frac[k - |sign| - |whole| - 1];
      }
    }
    NoSpaceNoSep(s, "/");
    NoSpaceNoSep(s, " - ");
  }

  /** A separator whose first character occurs nowhere in `s` does not occur
      in `s`. */
  lemma NoSpaceNoSep(s: string, sep: string)
    requires |sep| > 0
    requires forall k :: 0 <= k < |s| ==> s[k] != sep[0]
    ensures !Contains(s, sep)
  {
    forall j: nat ensures !OccursAt(s, sep, j) {
      if j + |sep| <= |s| { assert s[j..j + |sep|][0] == s[j]; }
    }
  }

  /** Two space-free texts joined by " - " split back into the two texts. */
  lemma RangeText(a: string, b: string)
    requires forall k :: 0 <= k < |a| ==> !IsSpace(a[k])
    requires forall k :: 0 <= k < |b| ==> !IsSpace(b[k])
    ensures !Contains(a + " - " + b, "/") <== !Contains(a, "/") && !Contains(b, "/")
    ensures SplitOn(a + " - " + b, " - ") == [a, b]
    ensures Trimmed(a + " - " + b) <== Trimmed(a) && Trimmed(b) && |a| > 0 && |b| > 0
  {
    var s := a + " - " + b;
    NoSpaceNoSep(a, " - ");
    NoSpaceNoSep(b, " - ");
    assert OccursAt(s, " - ", |a|) by { assert s[|a|..|a| + 3] == " - "; }
    assert forall j: nat :: j < |a| ==> !OccursAt(s, " - ", j) by {
      forall j: nat | j < |a| ensures !OccursAt(s, " - ", j) {
        if j + 3 <= |s| { assert s[j..j + 3][0] == s[j]; }
        assert s[j] == a[j];
      }
    }
    assert IndexOf(s, " - ") == Some(|a|);
    assert s[..|a|] == a && s[|a| + 3..] == b;
    if !Contains(a, "/") && !Contains(b, "/") {
      SlashFreeJoin(a, b);
    }
    if |a| > 0 && |b| > 0 {
      assert s[0] == a[0] && s[|s| - 1] == b[|b| - 1];
    }
  }

  /** Joining two slash-free texts with " - " adds no slash. */
  lemma SlashFreeJoin(a: string, b: string)
    requires !Contains(a, "/") && !Contains(b, "/")
    ensures !Contains(a + " - " + b, "/")
  {
    var s := a + " - " + b;
    forall k | 0 <= k < |s| ensures s[k] != '/' {
      if k < |a| {
        assert s[k] == a[k];
        CharOccurs(a, k);
      } else if k >= |a| + 3 {
        assert s[k] == b[k - |a| - 3];
        CharOccurs(b, k - |a| - 3);
      }
    }
    NoSpaceNoSep(s, "/");
  }

  /** Every character of a text occurs in it at its own index. */
  lemma CharOccurs(s: string, k: nat)
    requires k < |s|
    ensures OccursAt(s, [s[k]], k)
  {
  }
}
