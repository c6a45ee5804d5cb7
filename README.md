# Two-variable simplex tableau engine

This project models the engine behind the simplex solver web page in
`project/app.py`. The engine consists of the helpers nested in `solve()` and a
few inline blocks of that function. It takes a linear program with two
variables x and y and two `<=` constraints, parses it, builds the initial
simplex tableau and performs one simplex iteration per request:

1. choose the pivot column;
2. run the ratio test to choose the pivot row;
3. reject a zero pivot;
4. pivot;
5. report whether the z row still holds a negative entry.

The model is organised by the program's own parts:

- `text.dfy` (`Text`): string helpers the source gets from Python. They cover
  `str()` of an integer, `str.split('/')`, `str.replace(" ", "")` and the
  reading of digit runs.
- `number_format.dfy` (`NumberFormat`) covers `format_number`,
  `parse_fraction_string` and `format_reciprocal_display`.
  - Every tableau cell is stored as text and read back before further
    arithmetic. So a value `v` is seen afterwards as `Round(v)`, the fraction
    with denominator at most 10 closest to `v`.
  - Cell values are exact `real`s.
- `expression_parser.dfy` (`ExpressionParser`) covers `parse_constraint` and
  `parse_objective`.
  - Each regular expression is modelled as the scan it performs. `re.search`
    tries each start position in turn, and the groups are greedy.
  - `re.match` is anchored at the start, and `\+?` first takes a '+' but gives
    it back if the rest then fails.
- `simplex_tableau.dfy` (`SimplexTableau`) covers the pure parts of one
  iteration:
  - the tableau and the initial tableau;
  - the pivot column;
  - `check_negative_in_z_row`;
  - the ratios and the row they choose;
  - the specification of `perform_pivot_operations`;
  - the solution step with its zero-pivot guard.
- `pivot_engine.dfy` (`PivotEngine`) covers the imperative parts.
  - The ratio loop and its second, fallback loop.
  - `perform_pivot_operations` as in-place updates of a fresh `array2<real>`
    (the deep copy).
  - The solution step.
  - Each method is proved equal to the function that specifies it.
- `solve_request.dfy` (`SolveRequest`) covers how `solve()` turns the form's
  three strings into the initial tableau or the parse error.

Notes on what the code itself does:

- The z row's right-hand side accumulates the objective value with a positive
  sign. For 2x+3y under 2x+y<=18 and 2x+3y<=42 it becomes 42 after the pivot.
- In that example, one pivot already leaves no negative entry in the z row.
- When no row has a positive pivot-column entry, the second loop
  (project/app.py:397-402) tests the same condition as the ratio loop and finds
  nothing. The solution step then pivots on row 0.
- Ratios are not filtered by sign.
- A request performs exactly one iteration; there is no loop to a final
  tableau.

## Model

| member | source | states |
|---|---|---|
| NumberFormat.FormatNumber | project/app.py:29-39 | An integral value renders as its integer. Any value renders as the lowest-terms rendering of its stored value `Round(v)`. The rendering holds a '/' exactly when the stored value is not integral. |
| NumberFormat.Round | project/app.py:35-39 | The stored value `Fraction(v).limit_denominator(10)` is a fraction whose denominator is at most 10. |
| NumberFormat.Render | project/app.py:35-39 | The printed fraction holds a '/' exactly when the value is not integral. |
| NumberFormat.RoundNearest | project/app.py:35 | The stored value is at least as close to `v` as every fraction m/e with 1 <= e <= 10 (`limit_denominator(10)`). |
| NumberFormat.BestUpToNearest | project/app.py:35 | The best candidate over denominators 1..d is at least as close as every fraction with such a denominator. |
| NumberFormat.NearestNumeratorIsNearest | project/app.py:35 | For a fixed denominator d, the chosen numerator is the nearest one. |
| NumberFormat.RoundExact | project/app.py:35-39 | A fraction n/d with 1 <= d <= 10 is stored exactly. |
| NumberFormat.RoundRepresentable | project/app.py:35-39 | A value already with denominator <= 10 is stored unchanged. |
| NumberFormat.RoundIdempotent | project/app.py:29-59 | Storing an already stored value again changes nothing. |
| NumberFormat.LowestTerms | project/app.py:35-39 | The printed numerator and denominator give back the value, and the denominator is 1 exactly when the value is integral. |
| NumberFormat.LowestDenominator | project/app.py:35-39 | The printed denominator is the least denominator <= 10 of the value. |
| NumberFormat.ParseFraction | project/app.py:43-59 | Reading fails only on text containing '/'. Non-numeric text without '/' reads as 0.0. |
| NumberFormat.ParseIntToString | project/app.py:55-56 | `float(str(n))` is n. |
| NumberFormat.ParseSlashed | project/app.py:48-51 | "n/d" reads back as n/d. |
| NumberFormat.ParseRender | project/app.py:29-59 | The rendering of any value with denominator <= 10 reads back as exactly that value. |
| NumberFormat.ParseFormat | project/app.py:29-59 | `parse_fraction_string(format_number(v))` is `Round(v)`. |
| NumberFormat.ParseFormatExact | project/app.py:29-59 | For v an integer or n/d with d <= 10, parse(format(v)) == v. |
| NumberFormat.FormatParseFormat | project/app.py:29-59 | format after parse after format is format. |
| NumberFormat.FormatFractionOfRound | project/app.py:35-37 | A non-integral stored value renders as "n/d" in lowest terms. |
| NumberFormat.FractionParts | project/app.py:35-37 | A non-integral stored value has a non-zero numerator and a denominator above 1. |
| NumberFormat.ReciprocalDisplayWhole | project/app.py:61-76 | A k that renders as a whole number displays "1/k = 1/<k>" with no "or" part. |
| NumberFormat.ReciprocalDisplayFraction | project/app.py:61-76 | A k that renders as "n/d" displays "1/k = 1/n/d or d/n", and "d/n" reads back as 1/k's stored value inverted. |
| NumberFormat.ReciprocalTextFraction | project/app.py:66-71 | Splitting "a/b" at '/' and swapping gives "b/a". |
| NumberFormat.ParseFlipped | project/app.py:48-51 | "d/n" reads back as the reciprocal of n/d. |
| NumberFormat.ParseNumber | project/app.py:51-56 | `float()` succeeds only on non-empty text made of digits and '.', with at most a leading sign, and a negative result needs a leading '-'. |
| NumberFormat.ReciprocalDisplay | project/app.py:61-76 | The display always starts with "1/k = 1/" and then `format_number(k)`. When the stored k is whole, that is all of it. |
| NumberFormat.ReciprocalText | project/app.py:63-76 | The display of a rendering starts with "1/k = 1/" and the rendering. A rendering without '/' is shown with nothing after it. |
| Text.RemoveSpaces | project/app.py:111 | No space is left, every other character is kept, and text without spaces is unchanged. |
| Text.RemoveSpacesAppend | project/app.py:111 | Spaces are removed piecewise over a concatenation. |
| Text.IntToString | project/app.py:32 | `str(n)` is non-empty, digits with at most a leading '-'. |
| Text.SplitTwo | project/app.py:50 | `split('/')` of "a/b" without other '/' is ["a", "b"]. |
| Text.Split | project/app.py:50 | The parts hold no separator and join back to the text. |
| Text.NatToStringValue | project/app.py:32 | The digits of `str(n)` have value n. |
| ExpressionParser.LeadingCoefficient | project/app.py:114-115 | The greedy `[+-]?\d*` at the start of the text is a prefix that no digit follows. |
| ExpressionParser.LeadingCoefficientOf | project/app.py:114-115 | A coefficient followed by a non-digit is exactly what the greedy group takes. |
| ExpressionParser.MatchCoefficientAt | project/app.py:114-115 | A match at position p has a coefficient group that stands at p and is immediately followed by the variable letter. |
| ExpressionParser.MatchCoefficientAtComplete | project/app.py:114-115 | Wherever a coefficient is followed by the variable letter, the pattern matches there with that group. |
| ExpressionParser.SearchFrom | project/app.py:114-115 | A match found when scanning from p starts at or after p, and the pattern matches at that start with that group. |
| ExpressionParser.Search | project/app.py:114-115 | A successful search means the letter occurs, and the pattern matches at the reported start with the reported group. |
| ExpressionParser.SearchFromFirst | project/app.py:114-115 | `re.search` passes over no start position where the pattern matches. |
| ExpressionParser.SearchFromNowhere | project/app.py:114-115 | `re.search` fails only when the pattern matches at no position. |
| ExpressionParser.SearchFirstOccurrence | project/app.py:114-115 | The search for x (or y) succeeds iff the letter occurs. Its group is the longest sign-and-digit run ending just before the first occurrence. |
| ExpressionParser.SearchRhs | project/app.py:116 | `<=([+-]?\d+)$` matches iff some "<=" is followed by a signed integer running to the end (before an optional final newline). |
| ExpressionParser.RhsUnique | project/app.py:116 | The right-hand-side pattern matches at no more than one position. |
| ExpressionParser.SearchRhsEnd | project/app.py:116 | Text ending in "<=" and a signed integer yields that integer. |
| ExpressionParser.AltTail | project/app.py:118 | The groups read after the x and an optional '+' are a coefficient b and a signed integer rhs, and `b y<= rhs` is a prefix of the text. |
| ExpressionParser.AfterX | project/app.py:118 | What the fallback reads after the x is a prefix `[+]b y<= rhs` of the rest. |
| ExpressionParser.MatchAlt | project/app.py:118 | A fallback match is a start-anchored prefix `a x [+] b y <= rhs` of the text. |
| ExpressionParser.MatchAltComplete | project/app.py:118-122 | The fallback reads the canonical text followed by any non-digit, with the same values. |
| ExpressionParser.NoRhsBeforeJunk | project/app.py:116 | Text whose last digit is followed by junk without '=' defeats the right-hand-side search. |
| ExpressionParser.ParseObjective | project/app.py:142-159 | The objective parse fails exactly on empty text. |
| ExpressionParser.ObjectiveRoundTrip | project/app.py:142-159 | `<a>x[+]<b>y` reads back as (value of a, value of b). |
| ExpressionParser.ObjectiveMissingTerms | project/app.py:155-156 | A missing x or y term gives coefficient 0. |
| ExpressionParser.CoefficientValue | project/app.py:129-134 | `to_int`: "-" gives -1, "" and "+" give 1, and a signed integer gives its value. |
| ExpressionParser.PlusCoefficientValue | project/app.py:129-134 | A '+' before an unsigned coefficient does not change its value. |
| ExpressionParser.ParseConstraintSpaces | project/app.py:111 | Spaces in a constraint are irrelevant. |
| ExpressionParser.ConstraintRoundTrip | project/app.py:108-140 | `<a>x[+]<b>y<=<rhs>` reads back as its three values. |
| ExpressionParser.ConstraintTrailingText | project/app.py:117-122 | `<a>x[+]<b>y<=<rhs>` followed by junk still reads its three values, through the fallback, when the junk has no digit first, no '=', no space and no leading newline. |
| ExpressionParser.ParseConstraint | project/app.py:108-140 | A constraint that parses holds an x, a y, and "<=" immediately followed by a signed integer, once spaces are removed. |
| ExpressionParser.ExampleConstraintSpaced | project/app.py:108-140 | "2x + 3y <= 8" gives (2, 3, 8). |
| ExpressionParser.ExampleConstraintUnitCoefficients | project/app.py:129-134 | "x - y <= 5" gives (1, -1, 5). |
| ExpressionParser.ExampleConstraintTrailing | project/app.py:117-122 | "2x+3y<=8abc" gives (2, 3, 8). |
| ExpressionParser.ExampleConstraintStrict | project/app.py:113-124 | "x+y<10" gives no result. |
| ExpressionParser.ExampleConstraintMissingY | project/app.py:113-124 | "2x<=8" gives no result. |
| ExpressionParser.ExampleConstraintNoRightHandSide | project/app.py:113-124 | "x+y<=a" gives no result. |
| SimplexTableau.ColumnName | project/app.py:168-169 | The entering variable's name belongs to column c and is not z. |
| SimplexTableau.InitialTableau | project/app.py:352-356 | The initial tableau has three rows of five cells. Its cells are stated by `SolveRequest.BuildTableauShape`. |
| SimplexTableau.InitialCanonical | project/app.py:352-356 | The initial tableau is in canonical form with basis S1, S2. |
| SimplexTableau.FirstArgMin | project/app.py:364-366 | `z_row.index(min(z_row))`: a minimum, and strictly below every earlier entry. |
| SimplexTableau.PivotColumn | project/app.py:363-368 | The pivot column is one of columns 1..4. It holds the minimum z-row entry over those columns and is strictly below every earlier column, even when that minimum is >= 0. |
| SimplexTableau.AnyNegative | project/app.py:199 | `any(... < 0)` holds iff some entry is negative. |
| SimplexTableau.HasNegativeInZ | project/app.py:197-201 | True iff some z-row cell in columns 1..4 is negative. |
| SimplexTableau.NegativeIffPivotColumnNegative | project/app.py:197-201 | The z row has a negative entry iff the chosen pivot column's entry is negative. |
| SimplexTableau.RatioAt | project/app.py:378-387 | A row has a ratio iff its pivot-column entry is > 0, and the ratio times that entry is the row's right-hand side. |
| SimplexTableau.Ratios | project/app.py:377-387 | One ratio entry for each of rows 0 and 1. |
| SimplexTableau.MinRatioIndex | project/app.py:389-395 | The chosen row has the least ratio and is strictly below every earlier ratio. None iff no row has a ratio. |
| SimplexTableau.SolutionRow | project/app.py:445-460 | The row pivoted on is row 0 or 1. Its pivot-column entry is positive unless neither row has a positive entry, and then it is row 0. |
| SimplexTableau.SolutionRowChoice | project/app.py:445-460 | The row pivoted on has the least ratio among rows with a positive entry, or is row 0 when no row has one. |
| SimplexTableau.NormalizedRow | project/app.py:175-179 | The normalised pivot row has five cells, one per column. |
| SimplexTableau.EliminatedRow | project/app.py:182-193 | Each eliminated row has five cells, one per column. |
| SimplexTableau.PivotColumnCells | project/app.py:175-193 | The normalised row holds 1 in the pivot column, and every eliminated row holds 0 there. |
| SimplexTableau.Pivoted | project/app.py:161-195 | After a pivot the tableau keeps its shape, the pivot cell is 1 and the column's other cells are 0. Row r is relabelled with the entering variable and the other labels stay. |
| SimplexTableau.PivotPreservesCanonical | project/app.py:161-195 | A pivot on a constraint row keeps the tableau in canonical form. |
| SimplexTableau.SolveStep | project/app.py:445-479 | The step fails iff the chosen pivot is 0, with "Pivot element is zero (cannot divide).". Otherwise it yields a tableau of the same shape. |
| SimplexTableau.SolveStepPreservesCanonical | project/app.py:445-527 | A successful step keeps canonical form, makes the entering variable basic in the pivot row and zeroes its z-row entry. |
| SimplexTableau.ExampleChoice | project/app.py:363-393 | For 2x+3y with 2x+y<=18 and 2x+3y<=42 the column is y, the ratios are 18 and 14, and the row is 1. |
| SimplexTableau.ExamplePivoted | project/app.py:161-195 | The pivot gives rows [4/3,0,1,-1/3,4], [y: 2/3,1,0,1/3,14] and [z: 0,0,0,1,42]. |
| SimplexTableau.ExampleNormalized | project/app.py:175-179 | The example's normalised pivot row is [2/3,1,0,1/3,14]. |
| SimplexTableau.ExampleEliminated | project/app.py:182-193 | The example's other rows become [4/3,0,1,-1/3,4] and [0,0,0,1,42]. |
| SimplexTableau.ExampleIteration | project/app.py:445-527 | The whole step on the example succeeds with that tableau and no negative z-row entry. |
| PivotEngine.ComputeRatios | project/app.py:378-387 | The loop builds exactly the ratios the test specifies. |
| PivotEngine.RatioTest | project/app.py:377-402 | Ratios, row with the least ratio and its entry k > 0. With no such row, k is None and both entries are <= 0, so the second loop finds nothing. |
| PivotEngine.CopyCells | project/app.py:166 | A fresh array holding the tableau's cells. |
| PivotEngine.NormalizePivotRow | project/app.py:175-179 | Row r becomes the normalised row and the other rows are unchanged. |
| PivotEngine.EliminateRow | project/app.py:182-193 | Row i becomes the eliminated row and the other rows are unchanged. |
| PivotEngine.PerformPivot | project/app.py:161-195 | The in-place pivot on the copy returns exactly the pivoted tableau. |
| PivotEngine.ReadPivoted | project/app.py:168-172 | The array's rows with row r relabelled form the pivoted tableau. |
| PivotEngine.SolutionStep | project/app.py:445-527 | The step with its fallback, zero guard, pivot and negative check returns exactly what the solution step specifies. |
| SolveRequest.ObjectiveCoefficients | project/app.py:346-350 | An empty objective gives (0, 0); any other gives the parsed coefficients. |
| SolveRequest.BuildTableau | project/app.py:330-356 | Fails iff a constraint does not parse, with the source's error text. Otherwise yields a tableau of the right shape. |
| SolveRequest.BuildTableauShape | project/app.py:352-356 | The tableau is [S1: a1,b1,1,0,rhs1], [S2: a2,b2,0,1,rhs2], [z: -c1,-c2,0,0,0] and is canonical. |
| SolveRequest.ZeroObjectiveNoNegative | project/app.py:352-356 | With objective coefficients 0 and 0 the initial z row has no negative entry. |
| SolveRequest.EmptyObjectiveNoNegative | project/app.py:346-356 | With an empty objective the z row has no negative entry. |

## Left out

- Flask routing, the form fields, action dispatch, `render_template` and the iteration counter. These are web I/O. One request is modelled as one `SolveStep` on a tableau.
- `Markup`/HTML emphasis on labels. A label is the enumeration S1, S2, z, x, y.
- The JSON serialisation of the carried tableau and the '—' cell filter. Both belong only to that serialised form.
- The narration strings, the ratio display cells with their `:.2f` decimals, and the standard-form text. These are presentation only.
- The duplicated `tableau2_*` branch. It repeats the same logic and is modelled once.
- Floating point is not modelled. Cells are exact reals, and the store-and-reread step is `Round`.
- NumberFormat.FormatNumber: its 2-decimal fallback is not modelled. It runs only when `Fraction` raises, which it cannot do on a finite value.
- NumberFormat.Round: on an exact tie between two fractions, it may pick a different one than `Fraction.limit_denominator`. The contract states only "closest with denominator <= 10", because the library's continued-fraction tie-breaking is not part of this model.
- NumberFormat.ParseNumber: only `[+-]digits[.digits]` is read. Other `float()` syntaxes (exponents, "inf", "nan", underscores, surrounding whitespace) are treated as not numeric.
- NumberFormat.ParseFraction: a '/' text that makes the source raise (not two parts, a non-numeric part, a zero denominator) yields `None`. Cells the engine writes never have that form.
- ExpressionParser.ParseConstraint, ExpressionParser.ParseObjective: `\d` and `int()` read only the ASCII digits 0-9 here. Python also accepts every other Unicode decimal digit, so "٢x+y<=5" gives a = 2 in the source but a = 1 in the model.
- ExpressionParser.ParseConstraint, ExpressionParser.ParseObjective: Python 3.11 and later make `int()` raise on a digit run longer than 4300 digits. The `except` at project/app.py:139-140 and 158-159 then returns `None`, while the model returns the value. This integer-string length limit is an interpreter setting and is not modelled.
- There is no multi-step driver. The source performs one pivot per request, so nothing is claimed about termination.
