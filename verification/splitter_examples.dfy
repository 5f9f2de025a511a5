/** Worked ingredient lines. Each example takes its line as a parameter fixed
    by its precondition and reasons from the general splitting lemmas; the
    stripping of the literal tail is settled in a second step. */
module SplitterExamples {
  import opened Text
  import opened Splitter

  /** A whole number of cups. */
  lemma Flour(line: string)
    requires line == "4 cups flour"
    ensures SplitIngredient(line) == Ingredient("4", "cups flour")
  {
    FlourCut(line);
    Kept("cups flour");
  }

  lemma FlourCut(line: string)
    requires line == "4 cups flour"
    ensures SplitIngredient(line) == Ingredient("4", Strip("cups flour"))
  {
    SplitWhole(line, "", "4", " ", "cups flour");
  }

  /** A fraction of a teaspoon. */
  lemma Salt(line: string)
    requires line == "1/2 tsp salt"
    ensures SplitIngredient(line) == Ingredient("1/2", "tsp salt")
  {
    SaltCut(line);
    Kept("tsp salt");
    HalfText();
  }

  lemma HalfText()
    ensures "1" + "/" + "2" == "1/2"
  {
  }

  lemma SaltCut(line: string)
    requires line == "1/2 tsp salt"
    ensures SplitIngredient(line) == Ingredient("1" + "/" + "2", Strip("tsp salt"))
  {
    SplitFraction(line, "", "1", "2", " ", "tsp salt");
  }

  /** A range of eggs. */
  lemma Eggs(line: string)
    requires line == "1 - 2 eggs"
    ensures SplitIngredient(line) == Ingredient("1 - 2", "eggs")
  {
    EggsCut(line);
    Kept("eggs");
    EggsRangeText();
  }

  lemma EggsRangeText()
    ensures "1" + " - " + "2" == "1 - 2"
  {
  }

  lemma EggsCut(line: string)
    requires line == "1 - 2 eggs"
    ensures SplitIngredient(line) == Ingredient("1" + " - " + "2", Strip("eggs"))
  {
    SplitRange(line, "", "1", "2", " ", "eggs");
  }

  /** A line without a number keeps its whole text as the ingredient. */
  lemma ToTaste(line: string)
    requires line == "salt to taste"
    ensures SplitIngredient(line) == Ingredient("", "salt to taste")
  {
    ToTasteCut(line);
    Kept("salt to taste");
  }

  lemma ToTasteCut(line: string)
    requires line == "salt to taste"
    ensures SplitIngredient(line) == Ingredient("", Strip("salt to taste"))
  {
    NoDigitNoSplit(line);
  }

  /** A number at the very end of the line is not a quantity: the lookahead
      needs digit-free text after it. */
  lemma NumberLast(line: string)
    requires line == "Salt 2"
    ensures SplitIngredient(line) == Ingredient("", "Salt 2")
  {
    TrailingDigitNoSplit(line);
    Kept(line);
  }

  /** Text before the quantity is dropped. */
  lemma WordsFirst(line: string)
    requires line == "about 2 cups sugar"
    ensures SplitIngredient(line) == Ingredient("2", "cups sugar")
  {
    WordsFirstCut(line);
    Kept("cups sugar");
  }

  lemma WordsFirstCut(line: string)
    requires line == "about 2 cups sugar"
    ensures SplitIngredient(line) == Ingredient("2", Strip("cups sugar"))
  {
    SplitWhole(line, "about ", "2", " ", "cups sugar");
  }

  lemma HyphenEggs(line: string)
    requires line == "1-2 eggs"
    ensures SplitIngredient(line) == Ingredient("1-2", "eggs")
  {
    HyphenEggsCut(line);
    Kept("eggs");
    HyphenText();
  }

  lemma HyphenText()
    ensures "1" + "-" + "2" == "1-2"
  {
  }

  lemma HyphenEggsCut(line: string)
    requires line == "1-2 eggs"
    ensures SplitIngredient(line) == Ingredient("1" + "-" + "2", Strip("eggs"))
  {
    SplitHyphen(line, "", "1", "2", " ", "eggs");
  }

  /** A text that starts with a letter and ends with a letter or digit is
      its own strip. */
  lemma Kept(t: string)
    requires |t| > 0 && ('a' <= t[0] <= 'z' || 'A' <= t[0] <= 'Z')
    requires 'a' <= t[|t| - 1] <= 'z' || IsDigit(t[|t| - 1])
    ensures Strip(t) == t
  {
    StripTrimmed(t);
  }
}
