# Carbonara recipe calculator — a Dafny model of its scaling core

The program scrapes a carbonara recipe, written for four servings, as a list
of ingredient lines such as `1/2 tsp salt`. It rescales every quantity to the
serving size the user asks for. This project models that scaling core:

- **Splitting** (`split_ingredient`, `separate_units`). A regular expression
  splits a line into a quantity token and a description. The text before
  the token is dropped. A line the expression does not match gets an empty
  quantity. The expression is modelled as a backtracking matcher over its
  ten greedy pieces, with its lookahead. Lemmas prove that the matcher finds
  the leftmost start and, there, the greatest path in greedy priority
  order. That this is the path Python's backtracking engine takes is the
  premise of the model, not a proved fact.
- **Scaling** (`scale_quantity`, `round_and_scale`). An empty token stays
  empty. At the default serving size of 4 the token is returned unchanged.
  Otherwise the multiplier is `serving / 4`:
  - a token with `/` is a quotient;
  - a token with ` - ` is a range whose two ends are scaled on their own;
  - any other token is one number.
  The result is rounded to hundredths and printed with `str()`.
  `utils/transformation.py` rounds with `Decimal.quantize(ROUND_HALF_UP)`.
  `utils/scaler.py` and `monoscript.py` round with builtin `round`, which
  breaks ties towards the even digit. The tie rule is therefore a parameter
  (`Rounding.TieRule`).
- **Python floats** as far as the scaler needs them. `float()` on decimal
  text and `str()` on a rounded result are modelled on exact rationals with
  a separate sign bit, so that `-0.0` is representable. `float()` strips
  only tab through carriage return and space, as CPython's parser does.
  This is narrower than `str.strip()`, which also strips the separators
  0x1C-0x1F.
- **The recipe pipeline** (`calculate_recipe` in `utils/calculator.py`,
  `recipe_calculator.py` and `monoscript.py`). Each line is split and its
  quantity scaled. The scaled quantity and the description are joined by a
  space and stripped. An exception on any line makes the whole result
  empty. All three copies use the scaler's builtin `round`, so their tie
  rule is HalfEven (`Calculator.CalculatorRule`). The scraper is replaced by
  the list of lines it returns.
- **Storage paths** (`get_ingestion_path`) and the configuration constants
  `INGESTION_PATH`, `DEFAULT_SERVING_SIZE` and `VALID_UNIT_SYSTEMS`.

Modules, in dependency order:

- `wrappers.dfy`: `Result` and `Option`, and the two Python exceptions the
  core raises.
- `text.dfy`: `str.strip`, `split`, `lower`, `replace` and `in` on ASCII
  text.
- `rounding.dfy`: the two tie rules.
- `pyfloat.dfy`: `float()`, with its own whitespace strip, and `str()`.
- `scaling.dfy`: `scale_quantity`.
- `splitter.dfy`: the regular expression and `split_ingredient`.
- `calculator.dfy`: `calculate_recipe`.
- `ingestion.dfy`: `get_ingestion_path`.
- `*_examples.dfy`: worked lines and recipes.

## Model

| member | source | states |
|---|---|---|
| Splitter.Match | utils/transformation.py:26 | whatever the backtracking matcher returns is a way of matching the pattern from that position that ends where the lookahead holds |
| Splitter.MatchBest | utils/transformation.py:26 | whenever some way of matching from a position exists, the matcher finds one, and that one is the greatest in greedy priority order, the order in which Python's engine tries them |
| Splitter.SearchFrom | utils/transformation.py:26 | the match `re.split` uses starts at the leftmost position where any match exists, nothing matches before it, and no match at all means no position matches |
| Splitter.MatchedParts | utils/transformation.py:26 | every match consumes a group that starts with a digit and holds only digits, spaces, `.`, `-` and `/`, then at least one whitespace, then a non-empty digit-free rest of the line |
| Splitter.SplitIngredient | utils/transformation.py:25-31 | the quantity is empty exactly when the pattern matches nowhere, and then the ingredient is the stripped line; otherwise the quantity starts with a digit and holds only token characters, and the ingredient has no digit; both come out stripped; the copies in utils/scaler.py:25-27 and monoscript.py:62-68 are the same |
| Splitter.SeparateUnits | utils/transformation.py:33 | one record per input line, in input order, each the split of its own line, as in utils/scaler.py:29 and monoscript.py:70 |
| Splitter.NoDigitNoSplit | utils/transformation.py:26-30 | a line with no digit gets an empty quantity and keeps its whole stripped text as the ingredient |
| Splitter.TrailingDigitNoSplit | utils/transformation.py:26-30 | a line ending in a digit is never split, because the lookahead needs digit-free text up to the end |
| Splitter.PrefixDropped | utils/transformation.py:26-28 | digit-free text in front of a line that splits changes neither the quantity nor the ingredient |
| Splitter.SplitWhole | utils/transformation.py:26-28 | digit-free text, a whole number, whitespace and a description that starts outside the token characters split into that number and the stripped description |
| Splitter.SplitFraction | utils/transformation.py:26-28 | the same with a quantity `d1/d2` |
| Splitter.SplitRange | utils/transformation.py:26-28 | the same with a quantity `d1 - d2` |
| Splitter.SplitHyphen | utils/transformation.py:26-28 | the same with an unspaced quantity `d1-d2`, which the optional hyphen takes whole |
| SplitterExamples.ToTaste | utils/transformation.py:30 | `salt to taste` has no quantity and keeps its text |
| SplitterExamples.NumberLast | utils/transformation.py:26-30 | `Salt 2` has no quantity: its number is last on the line |
| SplitterExamples.WordsFirst | utils/transformation.py:26-28 | `about 2 cups sugar` splits into `2` and `cups sugar`, and the leading word is dropped |
| SplitterExamples.HyphenEggs | utils/transformation.py:26-28 | `1-2 eggs` splits into `1-2` and `eggs` |
| Rounding.RoundHundredths | utils/transformation.py:51-55 | the count of hundredths lies within half a hundredth of the value, and a tie is broken away from zero (`ROUND_HALF_UP`) under HalfUp, or towards the even count under HalfEven, as builtin `round(x, 2)` does in utils/scaler.py:65 |
| Rounding.RoundingUnique | utils/transformation.py:51-55 | exactly one count of hundredths is a correct rounding under a tie rule |
| Rounding.TieRulesDisagree | utils/scaler.py:65 | the two copies' rounding differs exactly on ties whose lower neighbour is an even count of hundredths |
| Text.SplitOn | utils/transformation.py:92-96 | `str.split(sep)` gives at least one part, exactly one when `sep` does not occur; no part contains `sep`; joining the parts with `sep` gives back the text; the first cut is at the leftmost occurrence |
| Text.SplitOnRest | utils/transformation.py:92-96 | after the first cut, the remaining parts are exactly `split(sep)` of the text after that occurrence, so every cut is the leftmost one in what remains |
| PyFloat.FloatStrip | utils/transformation.py:99 | the whitespace `float()` ignores is removed from both ends, and the result is no longer than the text |
| PyFloat.FloatStripPadded | utils/transformation.py:99 | tab-to-carriage-return and space characters around a text that has none at its ends are removed exactly, leaving that text |
| PyFloat.ParseFloat | utils/transformation.py:99 | `float()` accepts only text that is non-empty after stripping, and the result's sign bit is set exactly when the stripped text starts with `-` |
| PyFloat.ParseFloatAccepts | utils/transformation.py:92 | `float()` accepts a text exactly when its stripped form is an optional sign followed by digits with at most one point and at least one digit (`d`, `d.`, `.d` or `d.d`); anything else, including 0x1C-0x1F padding, raises ValueError |
| PyFloat.ParseFloatPoint | utils/transformation.py:96 | a stripped text of sign, digits, a point and digits reads as the decimal number those digits spell, with the sign bit set exactly for `-` |
| PyFloat.ParseFloatWhole | utils/transformation.py:99 | a stripped text of sign and digits reads as the whole number those digits spell, with the sign bit set exactly for `-` |
| PyFloat.RenderForm | utils/scaler.py:71 | `str()` of a rounded result is a minus sign exactly for a set sign bit, the whole hundreds without leading zeros, a point, and the remaining hundredths as one digit when they are a multiple of ten and otherwise as two digits |
| PyFloat.ParseRender | utils/transformation.py:93 | `float(str(h))` gives back every rounded result `h`, sign bit included |
| PyFloat.RenderInjective | utils/scaler.py:65 | distinct rounded results print as distinct texts |
| PyFloat.Render | utils/scaler.py:71 | `str()` of a rounded result is stripped, at least three characters long, ends in a digit, and starts with `-` exactly when the sign bit is set |
| Scaling.Multiplier | utils/transformation.py:89 | the multiplier's value is the serving size over 4, and its sign bit is set exactly for a negative serving size |
| Scaling.Divide | utils/transformation.py:92-93 | dividing by a zero raises ZeroDivisionError and nothing else raises; the quotient times the divisor gives back the dividend |
| Scaling.RoundScaled | utils/transformation.py:36-55 | the product is rounded once to hundredths under the tie rule, keeps the product's sign bit, and lies within 0.005 of the exact product; with HalfEven it is `round(x * m, 2)` of utils/scaler.py:65 |
| Scaling.ScaleQuantity | utils/transformation.py:58-99 | an empty token gives the empty text; at serving size 4 the token comes back unchanged; an error needs a non-empty token and another serving size; any other result is stripped text with no `/`; utils/scaler.py:32-71 and monoscript.py:73-116 are the same with tie rule HalfEven |
| Scaling.ScaleFraction | utils/transformation.py:91-93 | with one `/`, a part `float()` rejects raises ValueError, a zero denominator raises ZeroDivisionError, and otherwise the printed result reads back as the quotient times serving / 4, correctly rounded (also utils/scaler.py:63-65) |
| Scaling.ScaleTooManySlashes | utils/transformation.py:91-92 | a token with more than one `/` raises ValueError whatever its parts are |
| Scaling.ScaleTooManyDashes | utils/transformation.py:95-96 | a slash-free token with more than one ` - ` raises ValueError |
| Scaling.ScaleRange | utils/transformation.py:95-97 | with one ` - `, an end `float()` rejects raises ValueError; otherwise the result splits at ` - ` into exactly two texts, each reading back as its own end times serving / 4, correctly rounded (also utils/scaler.py:67-69) |
| Scaling.ScalePlain | utils/transformation.py:99 | a token with neither separator raises ValueError when `float()` rejects it, and otherwise reads back as its value times serving / 4, correctly rounded |
| Scaling.ReadBack | utils/transformation.py:93 | every printed scaled value reads back as the exact scaled value rounded under the tie rule |
| ScalingExamples.HalfDoubled | utils/transformation.py:91-93 | `1/2` at 8 servings gives `1.0` |
| ScalingExamples.ZeroDenominator | utils/transformation.py:92-93 | `1/0` at any serving size other than 4 raises ZeroDivisionError |
| ScalingExamples.RangeDoubled | utils/transformation.py:95-97 | `1 - 2` at 8 servings gives `2.0 - 4.0` |
| ScalingExamples.WholeDoubled | utils/transformation.py:99 | `4` at 8 servings gives `8.0` |
| ScalingExamples.TieHalved | utils/transformation.py:51-55 | `0.25` at 2 servings gives `0.13` under HalfUp and `0.12` under HalfEven |
| ScalingExamples.ExactTie | utils/transformation.py:51-55 | on exact values `0.35` at 2 servings is the tie 0.175, which both tie rules round up to `0.18`; CPython's double product falls below the tie, as recorded under "## Left out" |
| ScalingExamples.SeparatorInQuotient | utils/transformation.py:92 | `1\x1c/2` raises ValueError at every serving size other than 4: `float()` does not strip the separator 0x1C |
| ScalingExamples.UnspacedRange | utils/transformation.py:99 | `1-2` is not a range, and `float()` rejects it with ValueError |
| Calculator.ApplyAll | utils/calculator.py:40-42 | applying a function that may raise down a column succeeds exactly when it succeeds on every row, and then gives one result per row in order |
| Calculator.ScaleLine | utils/calculator.py:39-46 | one line through the pipeline raises only when it has a quantity and the serving size is not 4; otherwise it gives stripped text |
| Calculator.CalculateRecipe | utils/calculator.py:9-51 | an empty recipe gives the empty list; when every line scales there is one output per line, in order, each what its line gives on its own; recipe_calculator.py:9-43 and monoscript.py:119-161 are the same |
| Calculator.RaisingLineEmpties | utils/calculator.py:52-54 | when any line raises, the whole result is the empty list, the lines that scaled included; recipe_calculator.py:44-46 and monoscript.py:162-164 are the same |
| Calculator.RecipeByLines | utils/calculator.py:39-54 | the column-wise pipeline equals scaling the recipe line by line and giving the empty list at the first line that raises |
| Calculator.RecipeConcat | utils/calculator.py:39-54 | a recipe scales exactly when both of its halves do, and then its result is the halves' results one after the other; if either half raises the result is empty |
| Calculator.UnquantifiedLine | utils/calculator.py:43-46 | a line with no quantity comes out as the stripped line at every serving size |
| Calculator.DefaultLine | utils/calculator.py:39-46 | at 4 servings no line raises; a quantified line with a description comes out as quantity, one space and description |
| Calculator.DefaultRecipe | utils/calculator.py:9-54 | at 4 servings no line raises, so the result has one line per scraped line |
| CalculatorExamples.Doubling | utils/calculator.py:39-51 | `4 cups flour`, `1/2 tsp salt` and `1 - 2 eggs` at 8 servings give `8.0 cups flour`, `1.0 tsp salt` and `2.0 - 4.0 eggs` |
| CalculatorExamples.UnspacedRecipe | utils/calculator.py:52-54 | one line `1-2 eggs` empties the whole result, the well-formed line included |
| Ingestion.UnitSegment | utils/ingestion.py:61 | the segment has the name's length; each character is `_` where the name has a space and the lower-case form of the name's character elsewhere; it has no space and no upper-case letter; a name that already has neither comes back unchanged |
| Ingestion.GetIngestionPath | utils/ingestion.py:60-61 | the path is the configured prefix, an underscore, a normalised segment as long as the name, and `.csv` |
| Ingestion.SegmentRoundTrip | utils/ingestion.py:60-61 | the segment read back from between prefix and extension is the unit system's segment |
| Ingestion.SamePath | utils/ingestion.py:60-61 | two unit systems share a file exactly when their segments are equal |
| Ingestion.SegmentIdempotent | utils/ingestion.py:61 | normalising a segment again changes nothing |
| Ingestion.NormalisedPath | utils/ingestion.py:60-61 | passing a segment instead of its name gives the same file |
| Ingestion.SegmentFixed | utils/ingestion.py:61 | a name is its own segment exactly when it has no space and no upper-case letter |
| Ingestion.ConfiguredPaths | utils/config.py:20-22 | the two configured unit systems are stored at `./scraped_default_ingredients_us_customary.csv` and `./scraped_default_ingredients_metric.csv`, which differ |

## Left out

- Scraping (requests, BeautifulSoup, Selenium and the recipe URL) is not modelled. `calculate_recipe` takes the scraped lines as its input.
- `ingest_recipe` is not modelled: it checks for files, writes CSV files and loops over the configured unit systems. Only the path it computes is modelled.
- The FastAPI app, the command-line argument parsing and logging are not modelled.
- pandas is not modelled: data frames become sequences of records, and `Series.apply` becomes `Calculator.ApplyAll`.
- The serving size is an integer, as `calculate_recipe` declares. The web API and the single-file command line can pass a float, which is not modelled.
- Scaling.ScaleQuantity: computes on exact rationals, not binary doubles. Rounding of a product that is not exactly representable can differ from CPython's in the last place. So can a tie of the exact product that the double product misses: `0.35` at 2 servings gives the exact tie 0.175, which the model rounds to 0.18 under either rule (`ScalingExamples.ExactTie`). CPython stores 0.35 as slightly less, so its product lies below the tie and rounds to 0.17 under either rule.
- PyFloat.Render: prints the exact count of hundredths. CPython prints the shortest text that reads back as the double nearest to the rounded value. The two agree while the count has at most 15 digits, that is for magnitudes below 1e13. Above that they can differ: Python prints 1000000000000000.01 as `1000000000000000.0`. From 1e16 up Python also switches to exponent notation. Every rounded result below 1e-4 is zero, so the small exponent form never arises.
- PyFloat.ParseFloat: accepts only decimal text with an optional sign and at most one point, around which it strips tab through carriage return and space. Python's `float()` also accepts exponents, `inf`, `nan` and underscores between digits; the model rejects these with ValueError. The splitter never produces such a token, but a quantity given directly to `scale_quantity` could.
- The precision limit of `Decimal.quantize` (InvalidOperation from about 1e26 up) is not modelled.
- `round_decimal_place` and `round_decimal_units` are fixed at their defaults, hundredths.
- `\d`, `\s`, `str.strip` and `str.lower` are modelled on ASCII only. Python's versions also accept other Unicode digits, spaces and letters.
- The remaining configuration (the recipe URL and the Selenium options) is not modelled.
