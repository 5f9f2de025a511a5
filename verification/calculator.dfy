/** The recipe pipeline of `calculate_recipe`: the scraped lines are split
    into quantity and ingredient columns, the quantity column is scaled, and
    each output line is the scaled quantity and the ingredient joined by a
    space and stripped. Any exception while scaling makes the whole result
    empty. The scraper is replaced by the list of lines it would return.
    All three calculators scale with builtin `round`, so their tie rule is
    HalfEven. */
module Calculator {
  import opened Wrappers
  import opened Text
  import opened Rounding
  import opened Splitter
  import opened Scaling

  /** The tie rule of every `calculate_recipe`. */
  const CalculatorRule: TieRule := HalfEven

  /** One line on its own through the pipeline: split it, scale its
      quantity, and join the scaled quantity to the ingredient. */
  function ScaleLine(line: string, serving: int): (r: Result<string>)
    ensures r.Err? ==> SplitIngredient(line).quantity != "" && serving != DefaultServingSize
    ensures r.Ok? ==> Trimmed(r.value)
  {
    var item := SplitIngredient(line);
    var scaled :- ScaleQuantity(item.quantity, serving, CalculatorRule);
    Ok(Strip(scaled + " " + item.ingredient))
  }

  /** Every line of the recipe scales without an exception. */
  predicate AllScale(lines: seq<string>, serving: int) {
    forall k :: 0 <= k < |lines| ==> ScaleLine(lines[k], serving).Ok?
  }

  /** pandas' `Series.apply` with a function that may raise: the results
      row by row, or the exception of the first row that raises. */
  function ApplyAll<T, U>(xs: seq<T>, f: T -> Result<U>): (r: Result<seq<U>>)
    ensures r.Ok? <==> forall k :: 0 <= k < |xs| ==> f(xs[k]).Ok?
    ensures r.Ok? ==> |r.value| == |xs| && forall k :: 0 <= k < |xs| ==> f(xs[k]) == Ok(r.value[k])
  {
    if |xs| == 0 then Ok([])
    else
      var head := f(xs[0]);
      var rest := ApplyAll(xs[1..], f);
      if head.Err? then Err(head.error)
      else if rest.Err? then
        assert exists k :: 1 <= k < |xs| && f(xs[k]).Err? by {
          var j :| 0 <= j < |xs[1..]| && f(xs[1..][j]).Err?;
          assert xs[1..][j] == xs[j + 1];
        }
        Err(rest.error)
      else
        var r := [head.value] + rest.value;
        assert forall k :: 0 <= k < |xs| ==> f(xs[k]) == Ok(r[k]) by {
          forall k | 0 <= k < |xs| ensures f(xs[k]) == Ok(r[k]) {
            if k > 0 { assert xs[k] == xs[1..][k - 1] && r[k] == rest.value[k - 1]; }
          }
        }
        Ok(r)
  }

  /** `scale_quantity` as the calculators apply it to the quantity column. */
  function ScaleItem(serving: int): Ingredient -> Result<string> {
    (item: Ingredient) => ScaleQuantity(item.quantity, serving, CalculatorRule)
  }

  /** `(df["scaled_quantity"] + " " + df["ingredient"]).str.strip()`. */
  function JoinColumns(scaled: seq<string>, items: seq<Ingredient>): (r: seq<string>)
    requires |scaled| == |items|
    ensures |r| == |items|
  {
    seq(|items|, k requires 0 <= k < |items| => Strip(scaled[k] + " " + items[k].ingredient))
  }

  /** `calculate_recipe` on the scraped lines: empty input gives the empty
      list; otherwise, if every line scales, one output line per input line
      in the same order, each what the line gives on its own. What happens
      when a line raises is `RaisingLineEmpties`. */
  function CalculateRecipe(scraped: seq<string>, serving: int): (r: seq<string>)
    ensures |scraped| == 0 ==> r == []
    ensures AllScale(scraped, serving) ==>
              |r| == |scraped| && forall k :: 0 <= k < |scraped| ==> ScaleLine(scraped[k], serving) == Ok(r[k])
  {
    if |scraped| == 0 then []
    else
      var items := SeparateUnits(scraped);
      match ApplyAll(items, ScaleItem(serving))
      case Err(_) =>
        ColumnFromRows(scraped, serving, items);
        []
      case Ok(scaled) =>
        var r := JoinColumns(scaled, items);
        ColumnScales(scraped, serving, items, scaled, r);
        r
  }

  /** The exception handler: once any line raises, the whole recipe comes
      back as the empty list, the lines that scaled included. */
  lemma RaisingLineEmpties(scraped: seq<string>, serving: int)
    ensures !AllScale(scraped, serving) ==> CalculateRecipe(scraped, serving) == []
  {
    if |scraped| > 0 {
      ColumnScalesAll(scraped, serving);
    }
  }

  lemma ColumnScalesAll(scraped: seq<string>, serving: int)
    requires |scraped| > 0
    ensures ApplyAll(SeparateUnits(scraped), ScaleItem(serving)).Ok? ==> AllScale(scraped, serving)
  {
    var items := SeparateUnits(scraped);
    if ApplyAll(items, ScaleItem(serving)).Ok? {
      var scaled := ApplyAll(items, ScaleItem(serving)).value;
      ColumnScales(scraped, serving, items, scaled, JoinColumns(scaled, items));
    }
  }

  lemma ColumnFromRows(scraped: seq<string>, serving: int, items: seq<Ingredient>)
    requires items == SeparateUnits(scraped)
    ensures AllScale(scraped, serving) ==> ApplyAll(items, ScaleItem(serving)).Ok?
  {
    if AllScale(scraped, serving) {
      forall k | 0 <= k < |items| ensures ScaleItem(serving)(items[k]).Ok? {
        LineFails(scraped[k], items[k], serving);
      }
    }
  }

  lemma LineFails(line: string, item: Ingredient, serving: int)
    requires item == SplitIngredient(line)
    ensures ScaleItem(serving)(item).Err? ==> ScaleLine(line, serving).Err?
  {
  }

  lemma LineScales(line: string, item: Ingredient, serving: int, scaled: string)
    requires item == SplitIngredient(line)
    requires ScaleItem(serving)(item) == Ok(scaled)
    ensures ScaleLine(line, serving) == Ok(Strip(scaled + " " + item.ingredient))
  {
  }

  lemma ColumnScales(scraped: seq<string>, serving: int, items: seq<Ingredient>,
                     scaled: seq<string>, r: seq<string>)
    requires items == SeparateUnits(scraped)
    requires ApplyAll(items, ScaleItem(serving)) == Ok(scaled)
    requires r == JoinColumns(scaled, items)
    ensures AllScale(scraped, serving)
    ensures |r| == |scraped| && forall k :: 0 <= k < |scraped| ==> ScaleLine(scraped[k], serving) == Ok(r[k])
  {
    forall k | 0 <= k < |scraped| ensures ScaleLine(scraped[k], serving) == Ok(r[k]) {
      LineScales(scraped[k], items[k], serving, scaled[k]);
    }
  }

  /** A line with no quantity goes through unchanged but for stripping, at
      every serving size. */
  lemma UnquantifiedLine(line: string, serving: int)
    requires !HasMatch(line)
    ensures ScaleLine(line, serving) == Ok(Strip(line))
  {
    StripJoined("", SplitIngredient(line).ingredient);
  }

  /** At the default serving size no line raises, and each comes out as its
      quantity and ingredient joined by one space, or as the stripped line
      when it has no quantity. */
  lemma DefaultLine(line: string)
    ensures ScaleLine(line, DefaultServingSize).Ok?
    ensures !HasMatch(line) ==> ScaleLine(line, DefaultServingSize) == Ok(Strip(line))
    ensures var item := SplitIngredient(line);
            HasMatch(line) && item.ingredient != "" ==>
              ScaleLine(line, DefaultServingSize) == Ok(item.quantity + " " + item.ingredient)
  {
    var item := SplitIngredient(line);
    StripJoined(item.quantity, item.ingredient);
  }

  /** The default serving size never empties a recipe. */
  lemma DefaultRecipe(scraped: seq<string>)
    ensures AllScale(scraped, DefaultServingSize)
    ensures |CalculateRecipe(scraped, DefaultServingSize)| == |scraped|
  {
    forall k | 0 <= k < |scraped| ensures ScaleLine(scraped[k], DefaultServingSize).Ok? {
      DefaultLine(scraped[k]);
    }
  }

  /** Each line through the pipeline on its own. */
  function LineAt(serving: int): string -> Result<string> {
    (line: string) => ScaleLine(line, serving)
  }

  /** The column-wise pipeline agrees with scaling the recipe line by line
      and giving up on the first line that raises. */
  lemma RecipeByLines(scraped: seq<string>, serving: int)
    ensures AllScale(scraped, serving) <==> ApplyAll(scraped, LineAt(serving)).Ok?
    ensures CalculateRecipe(scraped, serving) ==
              match ApplyAll(scraped, LineAt(serving)) case Ok(v) => v case Err(_) => []
  {
    LinesAgree(scraped, serving);
    if ApplyAll(scraped, LineAt(serving)).Ok? {
      SameLines(scraped, serving);
    } else {
      RaisingLineEmpties(scraped, serving);
    }
  }

  lemma LinesAgree(scraped: seq<string>, serving: int)
    ensures AllScale(scraped, serving) <==> ApplyAll(scraped, LineAt(serving)).Ok?
  {
    var f := LineAt(serving);
    assert forall k :: 0 <= k < |scraped| ==> f(scraped[k]) == ScaleLine(scraped[k], serving);
  }

  lemma SameLines(scraped: seq<string>, serving: int)
    requires ApplyAll(scraped, LineAt(serving)).Ok?
    ensures CalculateRecipe(scraped, serving) == ApplyAll(scraped, LineAt(serving)).value
  {
    var f := LineAt(serving);
    var r := CalculateRecipe(scraped, serving);
    var v := ApplyAll(scraped, f).value;
    assert AllScale(scraped, serving) by {
      LinesAgree(scraped, serving);
    }
    forall k | 0 <= k < |r| ensures r[k] == v[k] {
      assert f(scraped[k]) == Ok(v[k]);
    }
  }

  /** Applying over a concatenation: it succeeds exactly when both halves
      do, with the two halves' results one after the other. */
  lemma ApplyAllConcat<T, U>(a: seq<T>, b: seq<T>, f: T -> Result<U>)
    ensures ApplyAll(a + b, f).Ok? <==> ApplyAll(a, f).Ok? && ApplyAll(b, f).Ok?
    ensures ApplyAll(a + b, f).Ok? ==> ApplyAll(a + b, f).value == ApplyAll(a, f).value + ApplyAll(b, f).value
  {
    var ab := a + b;
    assert forall k :: 0 <= k < |a| ==> ab[k] == a[k];
    assert forall k :: 0 <= k < |b| ==> ab[|a| + k] == b[k];
    if ApplyAll(ab, f).Ok? {
      var r, ra, rb := ApplyAll(ab, f).value, ApplyAll(a, f).value, ApplyAll(b, f).value;
      forall k | 0 <= k < |ab| ensures r[k] == (ra + rb)[k] {
        if k >= |a| { assert ab[|a| + (k - |a|)] == b[k - |a|]; }
      }
    }
  }

  /** Lines are scaled independently: when both halves of a recipe scale,
      the recipe's result is the two halves' results one after the other,
      and when either half raises the whole recipe is empty. */
  lemma RecipeConcat(a: seq<string>, b: seq<string>, serving: int)
    ensures AllScale(a + b, serving) <==> AllScale(a, serving) && AllScale(b, serving)
    ensures AllScale(a + b, serving) ==>
              CalculateRecipe(a + b, serving) == CalculateRecipe(a, serving) + CalculateRecipe(b, serving)
    ensures !AllScale(a, serving) || !AllScale(b, serving) ==> CalculateRecipe(a + b, serving) == []
  {
    RecipeByLines(a, serving);
    RecipeByLines(b, serving);
    RecipeByLines(a + b, serving);
    ApplyAllConcat(a, b, LineAt(serving));
  }
}
