/** Whole recipes through `calculate_recipe` at twice the default serving:
    each line is settled on its own from the splitting and scaling examples,
    and the recipe from its lines. */
module CalculatorExamples {
  import opened Wrappers
  import opened Text
  import opened Splitter
  import opened Scaling
  import opened Calculator
  import opened SplitterExamples
  import opened ScalingExamples

  /** Three lines, one of each quantity shape, doubled. */
  lemma Doubling(scraped: seq<string>, r: seq<string>)
    requires scraped == ["4 cups flour", "1/2 tsp salt", "1 - 2 eggs"]
    requires r == ["8.0 cups flour", "1.0 tsp salt", "2.0 - 4.0 eggs"]
    ensures CalculateRecipe(scraped, 8) == r
  {
    FlourLine(scraped[0]);
    SaltLine(scraped[1]);
    EggsLine(scraped[2]);
    DoubledTexts();
    ThreeLines(scraped, 8, r);
  }

  lemma DoubledTexts()
    ensures "8.0" + " " + "cups flour" == "8.0 cups flour"
    ensures "1.0" + " " + "tsp salt" == "1.0 tsp salt"
    ensures "2.0 - 4.0" + " " + "eggs" == "2.0 - 4.0 eggs"
  {
  }

  /** An unspaced range makes `float` raise, and with it the whole recipe
      comes back empty, the well-formed line included. */
  lemma UnspacedRecipe(scraped: seq<string>)
    requires scraped == ["4 cups flour", "1-2 eggs"]
    ensures CalculateRecipe(scraped, 8) == []
  {
    HyphenLine(scraped[1]);
    RaisingLineEmpties(scraped, 8);
  }

  lemma ThreeLines(scraped: seq<string>, serving: int, r: seq<string>)
    requires |scraped| == 3 && |r| == 3
    requires ScaleLine(scraped[0], serving) == Ok(r[0])
    requires ScaleLine(scraped[1], serving) == Ok(r[1])
    requires ScaleLine(scraped[2], serving) == Ok(r[2])
    ensures CalculateRecipe(scraped, serving) == r
  {
    var f := (line: string) => ScaleLine(line, serving);
    EachOfThree(scraped, f, r);
    RecipeOfLines(scraped, serving, r);
  }

  lemma EachOfThree<T, U>(xs: seq<T>, f: T -> Result<U>, ys: seq<U>)
    requires |xs| == 3 && |ys| == 3
    requires f(xs[0]) == Ok(ys[0]) && f(xs[1]) == Ok(ys[1]) && f(xs[2]) == Ok(ys[2])
    ensures forall k :: 0 <= k < |xs| ==> f(xs[k]) == Ok(ys[k])
  {
  }

  /** When every line's own result is known, so is the recipe's. */
  lemma RecipeOfLines(scraped: seq<string>, serving: int, r: seq<string>)
    requires |r| == |scraped|
    requires forall k :: 0 <= k < |scraped| ==> ScaleLine(scraped[k], serving) == Ok(r[k])
    ensures CalculateRecipe(scraped, serving) == r
  {
    assert AllScale(scraped, serving);
  }

  lemma FlourLine(line: string)
    requires line == "4 cups flour"
    ensures ScaleLine(line, 8) == Ok("8.0" + " " + "cups flour")
  {
    Flour(line);
    WholeDoubled(SplitIngredient(line).quantity, CalculatorRule, "8.0");
    LineFrom(line, 8, "8.0");
  }

  lemma SaltLine(line: string)
    requires line == "1/2 tsp salt"
    ensures ScaleLine(line, 8) == Ok("1.0" + " " + "tsp salt")
  {
    Salt(line);
    HalfDoubled(SplitIngredient(line).quantity, CalculatorRule);
    LineFrom(line, 8, "1.0");
  }

  lemma EggsLine(line: string)
    requires line == "1 - 2 eggs"
    ensures ScaleLine(line, 8) == Ok("2.0 - 4.0" + " " + "eggs")
  {
    Eggs(line);
    RangeDoubled(SplitIngredient(line).quantity, CalculatorRule);
    LineFrom(line, 8, "2.0 - 4.0");
  }

  lemma HyphenLine(line: string)
    requires line == "1-2 eggs"
    ensures ScaleLine(line, 8).Err?
  {
    HyphenEggs(line);
    UnspacedRange(SplitIngredient(line).quantity, 8, CalculatorRule);
  }

  /** A line whose quantity scales and whose ingredient is not empty comes
      out as the two joined by one space. */
  lemma LineFrom(line: string, serving: int, scaled: string)
    requires serving != DefaultServingSize
    requires ScaleQuantity(SplitIngredient(line).quantity, serving, CalculatorRule) == Ok(scaled)
    requires SplitIngredient(line).quantity != "" && |SplitIngredient(line).ingredient| > 0
    ensures ScaleLine(line, serving) == Ok(scaled + " " + SplitIngredient(line).ingredient)
  {
    StripJoined(scaled, SplitIngredient(line).ingredient);
  }
}
