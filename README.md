# Chemistry front end: formula tokenizer, element splitter and bond classifier

This project models the text-processing core of a small Kivy chemistry app (`main.py`).
The app has two screens:

- **Molecular mass** (`FirstScreen.calculate`). The screen cuts the input into tokens with a
  regular expression. It splits a leading coefficient off each token. A loop then deletes
  bracket pairs, innermost letters-and-digits group first. The `molmass` package weighs the
  flattened compound, and the weighted masses are added up.
- **Electronegativity difference** (`SecondScreen.get_electronegativity_difference`). The
  screen splits the input into element symbols with `split_elements`, longest symbol first.
  It refuses anything but exactly two symbols. It looks up both electronegativities and
  classifies `|en1 - en2|` as non-polar covalent (below 0.4), polar covalent (below 1.7) or
  ionic.

Modules:

- `Wrappers` — `Option` and `Result`, which stand in for `None` returns and raised exceptions.
- `Text` — the ASCII character classes of the patterns, Python's `str.capitalize`, and
  decimal numerals (`int(...)`).
- `Elements` — `get_electronegativity` and `split_elements`:
  - `SplitElements` is the loop of `split_elements`.
  - `Symbols` is its specification, the recursive `Scan` followed by the two-character override.
- `Formula` — the molecular-mass screen:
  - the `re.findall` tokenizer (`TokenSpans`, `FindAll`);
  - the coefficient split (`SplitCoefficient`);
  - the flattening loop (`Flatten`, specified by `Flattened`);
  - the summing loop (`AddUpComponents`, called from `Calculate`, specified by `Total`).
- `Bond` — the difference, the classification and the pair screen as a whole (`EvaluatePair`).

Two lookups belong to the `molmass` package and are parameters of the model, total
functions that return `None` where the package has no answer or raises:

- the periodic table's electronegativities, `ElementTable`;
- `Formula(compound).mass`, `MassTable`.

The model follows the code, including where it departs from usual chemical notation:

- An input with no token (empty, or only digits and characters other than letters and `(`)
  weighs `0.0`. It is not refused (`NoTokensWeighNothing`).
- A coefficient of `0` is accepted and weighs nothing.
- Flattening deletes a group's brackets without applying the multiplier written after it.
  "Ca(OH)2" is weighed as "CaOH2" (`CalciumHydroxideFlattened`, `CalciumHydroxideMass`).
- When both brackets occur but no letters-and-digits group does, `re.search` returns `None`,
  `.group(1)` raises, and the input is refused (`ReversedBracketsRefused`). A compound with
  only one kind of bracket leaves the loop unchanged and goes to `molmass` as it is.

## Model

| member | source | states |
|---|---|---|
| `Text.Capitalize` | main.py:15 | `capitalize` keeps the length, upper-cases the first character and lower-cases every later one |
| `Text.CapitalizeFixesCapitalized` | main.py:15 | the result is always in capitalised form, and a string is left unchanged exactly when it already is in that form |
| `Text.CapitalizeIdempotent` | main.py:15 | capitalising twice is capitalising once |
| `Text.CapitalizeIgnoresCase` | main.py:15 | two strings capitalise to the same text if and only if they differ only in letter case |
| `Text.DigitsValue` | main.py:76 | `int` of an n-digit string is below 10^n |
| `Text.DecimalRoundTrip` | main.py:76 | reading back the decimal numeral of `n` gives `n` |
| `Elements.ElectronegativityCanonical` | main.py:13-18 | a symbol already in capitalised form is looked up as written, and capitalising before the lookup changes nothing |
| `Elements.ElectronegativityIgnoresCase` | main.py:13-18 | the lookup gives the same answer for any two spellings that differ only in case |
| `Elements.Scan` | main.py:23-35 | the loop collects at most one symbol per remaining character |
| `Elements.Symbols` | main.py:20-39 | apart from two-character inputs the result is the scan itself; a two-character input never ends with exactly one symbol |
| `Elements.SplitElements` | main.py:20-39 | the loop with its `continue` and the final override returns exactly `Symbols`: scan with the pair tried before the single character, then replace a lone symbol from a two-character input by its two capitalised characters |
| `Elements.ScanSymbolsAreElements` | main.py:23-35 | the scan collects at most one symbol per character; each is a capitalised one- or two-character string that the table knows |
| `Elements.ScanTakenAt` | main.py:25-35 | each collected symbol is the capitalised slice at its start index; a one-character symbol is taken only where the two-character candidate was refused |
| `Elements.ScanInOrder` | main.py:23-35 | the slices behind the symbols lie left to right and do not overlap |
| `Elements.ScanSkipsOnlyNonElements` | main.py:31-35 | an index that no symbol covers starts neither a known pair nor a known single character, so only non-elements are skipped |
| `Elements.TwoCharacterInput` | main.py:36-38 | a two-character input gives either no symbol or its two capitalised characters, and no symbol exactly when neither the pair nor either character is an element |
| `Elements.SymbolsAreElements` | main.py:20-39 | for inputs of any other length, every symbol returned is a known element in canonical form |
| `Formula.RunEnd` | main.py:70 | a greedy character-class run: it stays in bounds, covers only class characters and stops at the first character outside the class |
| `Formula.RunEndUnique` | main.py:70 | any in-class run that ends at a non-class character or at the end of the text is the greedy run |
| `Formula.TokenSpans` | main.py:70 | every `findall` match is a non-empty range inside the input, starting no earlier than the scan position, and the matches are in order and do not overlap |
| `Formula.TokenSpansAreMatches` | main.py:70 | every reported range starts where the pattern can match (digits, then a letter or `(`) and extends over the longest `[A-Za-z0-9()]` run |
| `Formula.MatchIsToken` | main.py:70 | the text of such a match has the token shape |
| `Formula.FindAll` | main.py:70 | one token per match, each non-empty and no longer than the input |
| `Formula.FindAllTokensWellFormed` | main.py:70 | every token is non-empty, holds only `[A-Za-z0-9()]`, and its leading digits are followed by a letter or `(` |
| `Formula.NoLetterNoSpans` | main.py:70 | with no letter and no `(` after a position, the pattern matches nowhere from there on |
| `Formula.MatchesCovered` | main.py:70 | `findall` skips no match: every index where the pattern can match lies inside a reported match, so a coefficient is never cut off its compound |
| `Formula.TokensCoverLetters` | main.py:70 | every letter and every `(` of the input lies inside some token, so none is lost |
| `Formula.SingleToken` | main.py:70 | a text that has the token shape is found whole, as the only token |
| `Formula.SplitCoefficient` | main.py:73-79 | either the whole token with coefficient 1, or, after leading digits, a shorter non-empty compound that starts with a letter or `(` |
| `Formula.CoefficientRoundTrip` | main.py:73-79 | digits written before a compound that starts with a letter or `(` split back into the digits' value and the compound |
| `Formula.DecimalCoefficientRoundTrip` | main.py:73-76 | `str(n)` before such a compound splits back into `n` and the compound |
| `Formula.TokenComponent` | main.py:72-79 | on a token the compound is a suffix starting with a letter or `(`; the characters before it are digits whose value is the coefficient, or none, and the coefficient is then 1 |
| `Formula.SearchGroup` | main.py:83 | the search returns the leftmost `(`, letters and digits, `)` group, and `None` only when there is no group anywhere |
| `Formula.Find` | main.py:84 | `str.find`: the first index at which the pattern occurs, `None` when it occurs nowhere |
| `Formula.ReplaceFirst` | main.py:84 | `str.replace(..., 1)` leaves the text as it is when the pattern does not occur, and otherwise changes its length by `len(rep) - len(pat)` |
| `Formula.ReplaceFirstAtGroup` | main.py:83-84 | replacing the first literal occurrence of `(innermost)` by `innermost` deletes exactly the two brackets of the group the search found |
| `Formula.Flattened` | main.py:81-84 | a successful flattening leaves a string without both brackets, never longer than the input |
| `Formula.Flatten` | main.py:81-84 | the loop returns exactly `Flattened`, and `None` when the search inside the loop finds no group |
| `Formula.FlattenedIdempotent` | main.py:82 | flattening a flattened string changes nothing; a string without both brackets is its own result |
| `Formula.UnwrapKeepsOthers` | main.py:84 | one replacement removes one `(` and one `)` and keeps every other character in order |
| `Formula.FlattenedKeepsOthers` | main.py:81-84 | flattening only deletes brackets: the other characters stay in order, as many `(` as `)` go, two characters per step |
| `Formula.BalancedHasGroup` | main.py:82-83 | a well-nested token text that contains a `)` always has a group for the search to find |
| `Formula.UnwrapBalanced` | main.py:84 | deleting the brackets of an innermost group keeps a well-nested text well nested |
| `Formula.BalancedFlattens` | main.py:81-84 | a well-nested token text always flattens, to the text with all its brackets removed |
| `Formula.ComponentMassNonNegative` | main.py:73-87 | with a table that gives no negative mass, no component weighs less than zero |
| `Formula.Total` | main.py:68-87 | no components sum to `0.0`, the initial `total_mass` |
| `Formula.TotalNonNegative` | main.py:68-87 | with a table that gives no negative mass, a successful sum is never negative |
| `Formula.MolecularMass` | main.py:66-93 | the empty input weighs `0.0` |
| `Formula.Calculate` | main.py:65-93 | the screen's computation returns `MolecularMass`: the sum of each token's weighted mass, or `InvalidInput` |
| `Formula.AddUpComponents` | main.py:68-88 | the `for` loop returns `Total`: after `k` components, `total_mass` is the sum over the first `k`, and the loop stops with `InvalidInput` at the first component that cannot be flattened or weighed |
| `Formula.WeighComponent` | main.py:73-87 | one iteration's body (the coefficient split, the flattening loop, the `molmass` lookup) gives `ComponentMass`: the weighted mass, or `None` where the body raises |
| `Formula.TotalFailureExtends` | main.py:71-93 | once a prefix of the components cannot be weighed, the whole input is refused, whatever follows |
| `Formula.TotalSucceeds` | main.py:71-93 | the sum succeeds if and only if every token can be flattened and weighed |
| `Formula.NoTokensWeighNothing` | main.py:67-71 | an input without any letter or `(` gives no token and weighs `0.0` |
| `Formula.PlainCompound` | main.py:70-87 | a formula without a count, made of letters and digits and starting with a letter ("Fe", "H2O"), weighs exactly what `molmass` gives for it |
| `Formula.CountedCompound` | main.py:70-87 | a count written before a flat compound weighs the count times the compound's mass |
| `Formula.CalciumHydroxideFlattened` | main.py:81-84 | "Ca(OH)2" flattens to "CaOH2": the trailing 2 is not applied to the group |
| `Formula.ReversedBracketsRefused` | main.py:82-83 | ")(" has both brackets but no group, so it is refused |
| `Formula.CalciumHydroxideMass` | main.py:70-87 | "Ca(OH)2" weighs exactly what `molmass` gives for "CaOH2" |
| `Bond.Difference` | main.py:127 | the difference is non-negative and is one of the two signed differences, i.e. `abs(en1 - en2)` |
| `Bond.DifferenceSymmetric` | main.py:127 | the difference does not depend on the order of the two values, and is zero exactly when they are equal |
| `Bond.Classify` | main.py:128-134 | non-polar covalent if and only if below 0.4; polar covalent if and only if from 0.4 up to below 1.7; ionic if and only if 1.7 or more |
| `Bond.ClassifyMonotone` | main.py:129-134 | a larger difference never gives a less polar bond type |
| `Bond.EvaluatePair` | main.py:116-140 | a report names the two symbols the splitter found, their looked-up electronegativities, their non-negative difference and its classification |
| `Bond.EvaluatePairSucceeds` | main.py:119-126 | the screen answers if and only if the splitter finds exactly two symbols and both have an electronegativity; it reports the count error if and only if the count is not two |
| `Bond.SwappedPair` | main.py:119-134 | swapping the two characters of a two-character input changes neither success nor the difference and bond type |
| `Bond.HydrogenOxygen` | main.py:116-134 | with H = 2.2 and O = 3.4, "HO" reports H, O, difference 1.2, polar covalent |
| `Bond.HeliumIsSplit` | main.py:119-138 | "He" is split into "H" and "E" even though "He" is an element; with no "E" in the table the screen refuses with the missing-value error |

## Left out

- The Kivy widgets, screen switching, label texts, the `.3f`/`.1f` formatting and `Clipboard.copy` are presentation and I/O, so they are not modelled. The model returns the numbers and error kinds the labels would show, except for the two oversized-coefficient cases below.
- `molmass.Formula(...).mass` and the contents of `elements.ELEMENTS` are parameters (`MassTable`, `ElementTable`). The `molmass` package is not part of this model.
- Masses and electronegativities are exact reals. IEEE rounding in the sums, in the product with the coefficient and in `abs(en1 - en2)` is not modelled. In floating point, a difference computed right at 0.4 or 1.7 may fall on the other side of a threshold.
- Character classes and `capitalize` cover ASCII only. Python's `\d` also accepts other Unicode digits, and `capitalize` applies Unicode case mappings. Neither is modelled.
- The `except Exception` branch of the pair screen ("An error occurred: ...") has no path in the model, because no modelled step raises anything but the `ValueError` for a missing electronegativity.
- `Calculate` delegates its `for` loop to `AddUpComponents`, and the loop its body to `WeighComponent`. Together the three are one function body in `main.py`.
- SplitCoefficient: Python's `int` refuses a numeral of more than 4300 digits with `ValueError` (the default limit since Python 3.11), so the program answers "Invalid input." for such a coefficient. The model reads numerals of any length.
- Weighted: `f.mass * coefficient` raises `OverflowError` once the coefficient is an integer of about 2**1024 or more (from 2**1024 - 2**970, where conversion to a float rounds up to 2**1024), which the program also reports as "Invalid input.". Below that, a product beyond the float range becomes `inf` without an exception and the screen shows "Molecular Mass: inf". The model multiplies exact reals and weighs such components with a finite value.
