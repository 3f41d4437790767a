# Grade calculator — a verified model of its weighted-grade engine

The grade calculator is a small interactive page. A student ticks which of six
course components they already have a grade for, and enters each score as a
percentage. The six components are homework, discussion, three midterms and
the final exam. The page then does the following:

- it adds up the points earned (`score * weight` over the ticked components)
  and the weight counted (`total_weight`);
- it shows the current average over the received work;
- it computes the average needed on the remaining components to reach a
  target overall grade, and labels that average impossible, already met or
  achievable;
- it lists the remaining components;
- when everything is entered, it compares the grade with the target instead.

A standalone function, `calculate_grade`, repeats the same accumulation as a
loop over a dictionary. A few print-style test cases state its expected
results.

This project models both versions over exact real numbers. It proves the
following:

- the method that mirrors each version computes the sums it should;
- the weights and averages stay within their bounds;
- scoring the required average on every remaining component lands exactly on
  the target, and no other score does;
- each prediction label holds exactly in the situation it names;
- the remaining list holds exactly the unticked components, in page order;
- the dictionary version does not depend on iteration order, and agrees with
  the page;
- the test cases give the expected values.

Modules:

- `Weights` (`weights.dfy`): the weight table the two files share, one
  component's `(score, received)` input, and a few facts of real arithmetic.
- `Calculator` (`calculator.dfy`): the page's engine, calculator.py lines
  78-177. The widget values are parameters: a `Sheet` of six entries and a
  target.
- `TestCalculator` (`test_calculator.dfy`): `calculate_grade` and its test
  cases. The dictionary is modelled as its items in iteration order, with
  distinct keys.

## Model

| member | source | states |
|---|---|---|
| Weights.Weight | calculator.py:82-89 | each component is worth a positive share of at most a quarter: homework 0.05, discussion 0.10, each midterm 0.20, final 0.25 |
| Weights.TableRank | test_calculator.py:10-17 | every component has exactly one row in the weight table |
| Weights.WeightsSumToOne | calculator.py:82-89 | the partial sums of the table stay in [0, 1], and only all six rows together sum to 1 |
| Weights.PointsInRange | calculator.py:66-71 | a received score in [0, 100] adds between 0 and 100 points per unit of its weight; an unreceived one adds nothing |
| Calculator.Accumulate | calculator.py:78-109 | the six guarded `+=` pairs leave `current_grade` and `total_weight` equal to the table-order sums of points and weight over the ticked components |
| Calculator.CountedUpToBounds | calculator.py:92-109 | the counted weight of the first n rows lies between 0 and their full weight, and equals it exactly when all of them are ticked |
| Calculator.TotalWeightBounds | calculator.py:82-109 | `total_weight` lies in [0, 1] and equals 1 exactly when all six components are ticked |
| Calculator.GradeUpToBounds | calculator.py:92-109 | with ticked scores in [0, 100], the first n rows earn between 0 and 100 points per unit of counted weight |
| Calculator.CurrentGradeBounds | calculator.py:66-71 | with ticked scores in [0, 100], `0 <= current_grade <= 100 * total_weight` |
| Calculator.UpToIgnoresUnreceived | calculator.py:92-109 | two sheets with the same ticks and the same ticked scores have equal partial sums |
| Calculator.UnreceivedScoresIgnored | calculator.py:92-109 | scores typed into unticked components change neither `current_grade` nor `total_weight` |
| Calculator.CurrentAverage | calculator.py:112-129 | an average exists exactly when `total_weight > 0`, and then average times weight equals `current_grade` |
| Calculator.AverageInRange | calculator.py:112-115 | with ticked scores in [0, 100], the current average lies in [0, 100] |
| Calculator.ListingRank | calculator.py:146-152 | each component has exactly one position in the page's order of remaining assignments |
| Calculator.UnreceivedAmongExactly | calculator.py:145-152 | among the first n positions of that order, the list holds exactly the unticked components, in strictly increasing position |
| Calculator.UnreceivedExactly | calculator.py:145-152 | the remaining list holds exactly the unticked components, each once, in the page's order (Midterm 3, Final, Homework, Discussion, Midterm 1, Midterm 2) |
| Calculator.UnreceivedAmongIgnoresScores | calculator.py:145-152 | the remaining list depends only on the ticks |
| Calculator.ListRemaining | calculator.py:145-152 | the appends build exactly the remaining list |
| Calculator.Classify | calculator.py:159-166 | the three labels are exhaustive and exclusive: impossible iff required > 100, already met iff required < 0, achievable iff 0 <= required <= 100 |
| Calculator.Fill | calculator.py:134-138 | the filled sheet keeps every ticked entry and gives each unticked one the score x |
| Calculator.MissingUpToIsRest | calculator.py:133-134 | the weight of the unticked components among the first n rows is their full weight less the counted weight |
| Calculator.GainIsShare | calculator.py:134-138 | what scoring x on each unticked component adds is x points per unit of missing weight |
| Calculator.FillUpTo | calculator.py:134-138 | on the first n rows, filling completes the weight and adds exactly that gain to the points |
| Calculator.FillCompletes | calculator.py:133-138 | filling every remaining component brings the weight to 1 and the grade to `current_grade + x * remaining_weight` |
| Calculator.Outcome | calculator.py:131-177 | the else at lines 168-169 never happens; the all-entered comparison happens exactly when all six are ticked, and reports "meets" iff `current_grade >= target`; a prediction happens only with weight missing, satisfies `current_grade + required * remaining_weight == target`, and carries exactly the remaining list |
| Calculator.RequiredReachesTarget | calculator.py:134-138 | round trip: scoring the required average on every remaining component lands the overall grade exactly on the target |
| Calculator.RequiredIsUnique | calculator.py:134-138 | any score that lands exactly on the target when earned on all remaining components is the required average |
| Calculator.ImpossibleIffOutOfReach | calculator.py:159-160 | "impossible" exactly when work remains and even 100 on all of it falls short of the target |
| Calculator.AlreadyMetIffAhead | calculator.py:161-163 | "already met" exactly when work remains and `current_grade` exceeds the target |
| Calculator.OutcomeIgnoresUnreceived | calculator.py:131-177 | the prediction depends only on the ticks and the ticked scores |
| Calculator.Evaluate | calculator.py:78-177 | the page's sequence of steps yields the two sums, the guarded average and the prediction defined above |
| TestCalculator.AsMapKeys | test_calculator.py:19 | every key of the dictionary comes from one of its items |
| TestCalculator.DictEmpty | test_calculator.py:7-8 | an empty dictionary has no points and no weight |
| TestCalculator.DictInsert | test_calculator.py:19-22 | adding a new key adds that component's points and weight to the dictionary's sums |
| TestCalculator.ItemsMatchDict | test_calculator.py:19-22 | summing the items in iteration order gives the dictionary's sums over the weight table |
| TestCalculator.OrderIrrelevant | test_calculator.py:19-22 | two iteration orders of the same dictionary give the same grade and weight |
| TestCalculator.DictWeightBounds | test_calculator.py:19-22 | the dictionary's weight over the first n rows lies between 0 and their full weight, and equals it exactly when each is a key with a grade |
| TestCalculator.WeightInRange | test_calculator.py:19-22 | the returned weight lies in [0, 1], and is 1 exactly when all six components are keys with a grade |
| TestCalculator.GradeInRange | test_calculator.py:19-22 | with scores in [0, 100], `0 <= grade <= 100 * weight` |
| TestCalculator.Percentage | test_calculator.py:24-27 | with positive weight, the percentage times the weight is the grade; otherwise the percentage is 0 and nothing is divided |
| TestCalculator.PercentageInRange | test_calculator.py:24-27 | with scores in [0, 100], the percentage lies in [0, 100] |
| TestCalculator.CalculateGrade | test_calculator.py:1-29 | the loop returns the items' points and weight, and the guarded percentage of them |
| TestCalculator.DictMatchesSheet | test_calculator.py:19-22 | a dictionary holding a sheet's six entries has the sheet's partial sums |
| TestCalculator.AgreesWithCalculator | test_calculator.py:7-22 | on a dictionary of the page's six entries, in any order, `calculate_grade` returns the page's `current_grade` and `total_weight` |
| TestCalculator.Append | test_calculator.py:19-22 | one more item adds its points and weight to the running sums |
| TestCalculator.CaseSums | test_calculator.py:33-40 | a six-key test dictionary sums to the points and weights of its six entries |
| TestCalculator.AllPerfectScores | test_calculator.py:33-45 | all six at 100 give grade 100, weight 1 and percentage 100 |
| TestCalculator.FirstTwoMidtermsOnly | test_calculator.py:49-61 | homework 100, discussion 100, midterms 1 and 2 at 80 give grade 47, weight 0.55 and percentage exactly 47 / 0.55 |
| TestCalculator.MixedGradesSomeMissing | test_calculator.py:65-77 | homework 90, discussion 85, midterm 1 75, midterm 2 80 give grade 44, weight 0.55 and percentage 80 |
| TestCalculator.NoGradesEntered | test_calculator.py:81-93 | no grades give grade 0, weight 0 and percentage 0 |

## Left out

- The page layout, theming, widgets and every `st.*` call (calculator.py:1-75 and the display calls in lines 124-177). The widget values are parameters.
- The checkbox at calculator.py:132, "Show what's needed to reach target grade". It defaults to ticked, and the model takes it as ticked; when it is unticked the page shows no prediction.
- The range limits of the number inputs (calculator.py:66-71). They are not part of the engine. The bounds lemmas take them as a hypothesis (`ScoresInRange`).
- The string formatting of results, including the percentage labels of the remaining list. The list is a sequence of components.
- The grade-cutoff table (calculator.py:180 onwards). It is static text.
- The `print` calls in `test_cases`. Their expected values are the four test-case lemmas.
- IEEE double arithmetic. All sums are exact reals, so the table sums to exactly 1 and the `else` at calculator.py:168-169 is unreachable (`Calculator.Outcome`). Summed in the page's order (calculator.py:92-109), the double running sums of the weights are 0.05, 0.15000000000000002, 0.35000000000000003, 0.55, 0.75 and 1.0, and any five of the six stay well below 1, so line 133 branches as it does over reals. Doubles can differ from the model at the boundary comparisons of calculator.py lines 159, 161 and 174: a required average of exactly 100 over reals can come out as 100.00000000000001.
- A "drop the lowest midterm" rule and a curve adjustment: neither appears in calculator.py or test_calculator.py, so neither is modelled. Line 137's exact `remaining_weight > 0` test is modelled as written, with no tolerance.
- Keys other than the six components in `calculate_grade`'s dictionary. In Python such a key raises `KeyError` at test_calculator.py:21 when its `has_grade` is true; when it is false, line 20 skips it and it changes nothing. Here the key type admits only the six components.
