# Chemical equation balancer, modelled in Dafny

`app.py` balances a chemical equation in three stages:

- It parses every formula into a map from element symbol to atom count (`parse_compound`).
- It builds the stoichiometric matrix: one row per element, one column per compound, reactants first, with product counts negated.
- It asks sympy for the matrix's null space, then turns the first basis vector into small non-negative integers and prints them in front of the formulas around an arrow (`balance_equation`).

This project models those stages and proves what each one computes.

- `numbers.dfy` (module `Numbers`):
  - Euclid's gcd, and an lcm built on it, standing in for sympy's `gcd` and `lcm`.
  - Their folds over a list (`reduce(gcd, …)`).
  - Decimal reading and writing of naturals (`int(num)` and `str(c)`).
- `formula.dfy` (module `Formula`): the scanner.
  - `Tokenize`/`Parse` are a functional reading of the grammar.
  - `ParseCompound` is the index-walking loop of the source, proved to return `Parse`.
  - The lemmas say which strings are accepted, which keys come out, and how the counts add up.
- `stoichiometry.dfy` (module `Stoichiometry`): the first half of `balance_equation` as methods with loops.
  - It parses each compound, collects the element set and lists it, then builds each row.
  - Lemmas prove that a coefficient vector is in the null space exactly when it conserves every element, whatever the row order.
- `coefficients.dfy` (module `Coefficients`):
  - Exact rationals.
  - The contract that stands in for sympy's `nullspace()`.
  - The normaliser (lcm scaling, `abs`, gcd division), with what it keeps: gcd 1, proportionality, uniqueness, invariance under scaling, idempotence, and the null space when signs agree.
- `format.dfy` (module `Format`): the formatter.
  - Its partner is a reader, `ReadEquation`, that splits the printed line back into compounds and coefficients.
  - A round-trip lemma connects the two.
- `balance.dfy` (module `Balance`): `balance_equation` end to end.
  - It shows when the error text is returned.
  - A printed equation reads back as the input compounds with gcd-1 coefficients.
  - Those coefficients conserve every element when the basis vector has one sign.
- `scenarios.dfy` (module `Scenarios`): worked cases.
  - Parses: `"H2O"`, `"HOH"`, `"h2o"`, `"H0"` and `""`.
  - The full pipeline, for every null space meeting the contract, on H2 + O2 → H2O (balanced) and H2 → O2 (the error text), and on a reactant that does not parse.
  - H2 + H2O → O2, whose only basis vector up to scaling has entries of both signs: the line printed does not balance.

The null space is a parameter of `Balance.BalanceEquation`. Every property holds for any function meeting `Coefficients.NullspaceContract`:

- every basis vector is a non-zero rational solution of M·v = 0;
- the basis is empty only when the zero vector is the only solution.

The order in which Python lists a set is not fixed, so the model admits any order of distinct elements (`Stoichiometry.IsElementOrder`). The result is stated for the order the run happened to take.

Where the documented behaviour and the code differ, the model follows the code:

- The empty formula parses to the empty map. The loop body never runs (app.py:11).
- A written count of 0 (`"H0"`) is kept as 0 (app.py:22).
- No zero coefficient is rejected after normalisation, and nothing checks for an ambiguous (multi-dimensional) null space: the first basis vector is always used (app.py:52).
- Coefficients are made non-negative with `abs`, which can break conservation when the basis vector has entries of both signs (see `Scenarios.MixedSignUnbalanced`).
- Compounds that name no element give a matrix with no rows. sympy treats it as 0×0, and its null space is empty, so the error text is returned (`Coefficients.Cols`, `Balance.CannotBalanceIff`).

## Model

| member | source | states |
|---|---|---|
| Numbers.Gcd | app.py:57 | gcd(a, b) is 0 exactly when both are 0, and otherwise divides both |
| Numbers.GcdGreatest | app.py:57 | every common divisor of a and b divides gcd(a, b) |
| Numbers.GcdAll | app.py:57 | reduce(gcd, cs) is 0 exactly when every entry is 0, and otherwise divides every entry |
| Numbers.GcdAllGreatest | app.py:57 | every common divisor of the entries divides reduce(gcd, cs) |
| Numbers.GcdAllScale | app.py:57 | the gcd of k times each entry is k times the gcd |
| Numbers.PrimitiveUnique | app.py:57-58 | two lists with gcd 1 that are proportional (a·p[i] = b·q[i]) are equal |
| Numbers.Lcm | app.py:54 | lcm(a, b) is a positive multiple of both that divides every common multiple, so it is the least one |
| Numbers.LcmDivides | app.py:54 | a y divides every common multiple of a = g x and b = g y, g = gcd(a, b), because x and y share no factor |
| Numbers.LcmAll | app.py:54 | the lcm of a list is a positive multiple of every entry that divides every common multiple of the entries |
| Numbers.NatToString | app.py:60-61 | str(n) is a canonical decimal (digits, no leading zero) whose value is n |
| Numbers.CanonicalDecimalRoundTrip | app.py:60-61 | a canonical decimal is exactly str() of its value, so printing is injective |
| Formula.LowerRunMaximal | app.py:15-17 | the lowercase loop takes only lowercase letters and stops before one that is not |
| Formula.LowerRunUnique | app.py:15-17 | any maximal run of lowercase letters is the one the loop takes |
| Formula.DigitRunMaximal | app.py:19-21 | the digit loop takes only digits and stops before a non-digit |
| Formula.DigitRunUnique | app.py:19-21 | any maximal run of digits is the one the loop takes |
| Formula.FirstTokenValid | app.py:12-21 | at an uppercase letter the scan reads a symbol (uppercase then lowercase) and digits, and the text is that token followed by the rest |
| Formula.TokenBounds | app.py:12-21 | boundaries of a maximal lowercase run then a maximal digit run are where the loops stop |
| Formula.Tokenize | app.py:11-24 | every token of a successful scan is a valid symbol with digits |
| Formula.ParseCompound | app.py:8-25 | the while loop returns Parse(compound): the map, or InvalidFormat naming the compound |
| Formula.ReadToken | app.py:12-22 | one pass of the loop moves the index forward, and parsing the rest with the new map equals parsing from the old index with the old map |
| Formula.ReadSymbol | app.py:13-17 | the symbol is the uppercase letter and every lowercase letter after it, stopping at the first other character |
| Formula.ReadDigits | app.py:18-21 | num is the maximal run of digits from the index |
| Formula.ScanStep | app.py:12-22 | what the loops read from a token start is the first token, whose amount is added before parsing goes on |
| Formula.ParseRestStep | app.py:22 | parsing adds the first token's amount, or 1 without digits, to the symbol's entry and goes on after the token |
| Formula.TokenizeSpellsInput | app.py:11-24 | the tokens of a successful scan spell the input exactly |
| Formula.TokenizeSpell | app.py:11-24 | scanning the text of valid tokens gives back those tokens |
| Formula.SpellWellFormed | app.py:11-24 | the text of valid tokens is well formed |
| Formula.WellFormedTokenizes | app.py:11-24 | every well-formed string scans |
| Formula.ParseSucceedsIffWellFormed | app.py:11-24 | parsing succeeds exactly on well-formed strings: ASCII letters and digits, uppercase first, no lowercase right after a digit, "" included |
| Formula.Tally | app.py:22 | meaning given by TallyCounts and TallyKeys: per symbol, the old count plus the amounts of the tokens naming it |
| Formula.Parse | app.py:8-25 | meaning given by ParseSucceedsIffWellFormed, ParseCounts and ParseKeysAreSymbols: the counts of the tokens of a well-formed formula, InvalidFormat otherwise |
| Formula.TallyCounts | app.py:22 | the count of e after tallying is its old count plus the amounts of the tokens naming e |
| Formula.TallyKeys | app.py:22 | e is a key after tallying exactly when it was one before or some token names it |
| Formula.ParseKeysAreSymbols | app.py:12-17 | every key of a parsed compound is one uppercase letter followed by lowercase letters |
| Formula.ParseCounts | app.py:18-22 | a parsed count is the sum over the tokens naming e of their digits' value, or 1 each; e is a key exactly when a token names it |
| Stoichiometry.ParseAll | app.py:31-34 | all compounds parse exactly when each does, giving one map per compound in order; otherwise the error is that of the first compound that fails |
| Stoichiometry.BuildMatrix | app.py:28-45 | a parse error propagates; otherwise the compositions are the parsed maps, the rows are the element set in some distinct order, and the matrix is StoichMatrix of them |
| Stoichiometry.ParseEach | app.py:31-35 | the loop parses every compound in order, stops at the first error, and collects the union of the keys |
| Stoichiometry.FirstFailureUnique | app.py:32-33 | the compound the loop stops at is the first one that does not parse |
| Stoichiometry.ListElements | app.py:37 | list(element_set) holds each element of the set exactly once |
| Stoichiometry.BuildRows | app.py:40-45 | one row per listed element, in order |
| Stoichiometry.BuildRow | app.py:41-44 | entry i is the count of the element in compound i, 0 if absent, negated for products |
| Stoichiometry.ElementSetSnoc | app.py:35 | element_set.update adds the new compound's keys to the element set |
| Stoichiometry.Row | app.py:41-44 | meaning given by RowDot: the row times c is reactant atoms of e minus product atoms, weighted by c |
| Stoichiometry.StoichMatrix | app.py:40-45 | meaning given by NullIffConserved: c is in its null space exactly when c conserves every element |
| Stoichiometry.RowDot | app.py:42-44 | a row times c is the reactant atoms of e weighted by c minus the product atoms |
| Stoichiometry.NullIffConserved | app.py:40-45 | the matrix sends c to zero exactly when c conserves every element, so the row order does not matter |
| Coefficients.Multiple | app.py:53-54 | the multiple is the least common multiple of the denominators: positive, divisible by each, dividing every common multiple |
| Coefficients.NullspaceContract | app.py:47-48 | what the null space is relied on to return: non-zero rational solutions of M v = 0, and an empty basis only when no non-zero solution exists; used by BasisFitsMatrix and CannotBalanceIff |
| Coefficients.Scale | app.py:55 | meaning given by ScaleIsExact: int(multiple * val) is exactly the multiple times the rational value |
| Coefficients.AbsAll | app.py:55 | meaning given by ScaledNonZero and NormalizeKeepsNull: absolute values, positive where the entry is non-zero |
| Coefficients.Scaled | app.py:55 | meaning given by ScaleIsExact and ScaledNonZero: the solution times the multiple, made non-negative, positive where the solution is non-zero |
| Coefficients.ScaleIsExact | app.py:55 | int(multiple * val) is exactly multiple times the rational value |
| Coefficients.ScaledNonZero | app.py:55 | a non-zero entry gives a positive coefficient after scaling and abs |
| Coefficients.Factor | app.py:57 | the factor is the greatest common divisor of the scaled coefficients: at least 1, divides each, and is divided by every common divisor |
| Coefficients.DivideAll | app.py:58 | each quotient times the factor is the scaled coefficient, so c // factor loses nothing |
| Coefficients.DividedGcdIsOne | app.py:57-58 | dividing by the gcd leaves coefficients with gcd 1 |
| Coefficients.Normalize | app.py:52-58 | one coefficient per compound, gcd 1, each times the factor equals the scaled coefficient |
| Coefficients.NormalizeUnique | app.py:53-58 | any gcd-1 list proportional to the scaled coefficients is the normalised list |
| Coefficients.NormalizeMultiple | app.py:53-58 | multiplying the basis vector by any non-zero integer, of either sign, does not change the printed coefficients |
| Coefficients.NormalizeIdempotent | app.py:53-58 | integer coefficients with gcd 1, read as a solution, normalise to themselves |
| Coefficients.IntegerDotZero | app.py:53-55 | scaling a null vector by the multiple gives an integer vector the matrix sends to zero |
| Coefficients.NormalizeKeepsNull | app.py:53-58 | for a null vector whose entries share a sign, the matrix sends the normalised coefficients to zero |
| Format.FormatEquation | app.py:60-62 | meaning given by ReadFormatted: the printed line reads back as the reactants, the products and all coefficients |
| Format.ReadTermOfTerm | app.py:60 | a term of a well-formed formula reads back as its coefficient and formula |
| Format.ReadSideWords | app.py:60-61 | the words of ' + '.join(terms) read back as the coefficients and compounds of that side |
| Format.LayoutAsWords | app.py:60-62 | the printed line is the words of both sides and the arrow, joined by single spaces |
| Format.ReadFormatted | app.py:60-62 | for formulas that parse, reading the printed equation gives back the reactants, the products and all coefficients |
| Balance.BalanceEquation | app.py:27-62 | a parse error is returned as is; otherwise the result is the error text for an empty basis, or the first basis vector normalised and printed, for the row order the run took |
| Balance.Finish | app.py:49-62 | meaning given by CannotBalanceIff and PrintedEquationReadsBack: the error text exactly when nothing balances, otherwise the input compounds with gcd-1 coefficients |
| Balance.MatrixIsRectangular | app.py:40-47 | every row has one entry per compound |
| Balance.BasisFitsMatrix | app.py:47-48 | every basis vector is non-zero, rational, with one entry per compound |
| Balance.CannotBalanceIff | app.py:47-50 | the error text is returned exactly when no compound names an element or no non-zero integer coefficients conserve every element |
| Balance.IntegerSolution | app.py:53-55 | a basis vector scaled by the lcm is a non-zero integer vector conserving every element |
| Balance.IntegerSolutionIsNull | app.py:47-48 | conserving non-zero integer coefficients are a non-zero null vector, so the basis cannot be empty |
| Balance.FormattedIsNotError | app.py:49-62 | a printed equation is never the error text |
| Balance.PrintedEquationReadsBack | app.py:52-62 | a printed equation reads back as the input compounds, in order, with coefficients whose gcd is 1 |
| Balance.PrintedCoefficientsConserve | app.py:52-58 | when the basis vector has one sign, the printed coefficients conserve every element |
| Scenarios.ParseWater | app.py:8-25 | "H2O" parses to H:2, O:1 |
| Scenarios.ParseRepeatedSymbol | app.py:22 | "HOH" parses to H:2, O:1 |
| Scenarios.ParseLowercaseStart | app.py:23-24 | "h2o" is rejected, naming "h2o" |
| Scenarios.ParseZeroCount | app.py:18-22 | "H0" parses to H:0 |
| Scenarios.ParseEmpty | app.py:9-11 | "" parses to the empty map |
| Scenarios.ParseDiatomic | app.py:12-22 | a symbol letter followed by 2 parses to that symbol with count 2 |
| Scenarios.WaterParses | app.py:31-34 | H2, O2 and H2O parse to H:2; O:2; H:2, O:1 |
| Scenarios.WaterConservation | app.py:40-45 | coefficients of H2, O2, H2O conserve every element exactly when they are 2t, t, 2t |
| Scenarios.WaterSolution | app.py:52-58 | every non-zero null vector of the water matrix, in either row order, normalises to 2, 1, 2 |
| Scenarios.BalanceWater | app.py:47-62 | for every basis meeting the null-space contract and every row order, H2 + O2 → H2O prints "2H2 + 1O2 → 2H2O" |
| Scenarios.WaterBalances | app.py:27-62 | balance_equation(["H2", "O2"], ["H2O"]) returns "2H2 + 1O2 → 2H2O" for every null space meeting the contract |
| Scenarios.HydrogenOxygenParses | app.py:31-34 | H2 and O2 parse to H:2 and O:2 |
| Scenarios.HydrogenOxygenConservation | app.py:40-45 | coefficients of H2 and O2 conserve both elements only when both are 0 |
| Scenarios.HydrogenOxygenUnbalanceable | app.py:47-50 | no non-zero integer coefficients balance H2 → O2 |
| Scenarios.CannotBalanceHydrogenToOxygen | app.py:47-50 | for every basis meeting the null-space contract, H2 → O2 gives the error text |
| Scenarios.HydrogenToOxygenFails | app.py:27-50 | balance_equation(["H2"], ["O2"]) returns the error text for every null space meeting the contract |
| Scenarios.LowercaseReactantFails | app.py:31-33 | balance_equation(["h2o"], products) ends with the parse error naming "h2o", whatever the products |
| Scenarios.HydrogenWaterParses | app.py:31-34 | H2, H2O and O2 parse to H:2; H:2, O:1; O:2 |
| Scenarios.HydrogenWaterConservation | app.py:40-45 | coefficients of H2, H2O, O2 conserve every element exactly when they are -2t, 2t, t |
| Scenarios.HydrogenWaterSolution | app.py:52-58 | every non-zero null vector of that matrix normalises to 2, 2, 1 |
| Scenarios.MixedSignUnbalanced | app.py:52-62 | for every basis meeting the null-space contract, the first vector of H2 + H2O → O2 has entries of both signs, the line printed is "2H2 + 2H2O → 1O2", and it does not conserve hydrogen |

## Left out

- The Flask application is glue around the balancer and is not modelled: the route, `request.form`, the `"+"`-splitting of the form fields, the broad `except` that turns an exception into `"Error: …"`, `render_template` and `app.run` (app.py:1-5, 64-78). A parse error is returned as `Err(InvalidFormat(compound))` instead of raised.
- sympy's `Matrix.nullspace` (reduced row echelon form and the choice of basis) is foreign code. It enters as a function parameter constrained by `NullspaceContract`. Which vector sympy puts first, when the null space has dimension above 1, is not modelled.
- The order of `list(element_set)` is whatever Python's set gives. The model lets `ListElements` choose any order of distinct elements.
- `str.isupper`, `str.islower` and `str.isdigit` are modelled on ASCII only. Unicode letters and digits are not.
- Python integers are unbounded. Dafny's `int` is used as is, so no width limit applies.
- Coefficients.NormalizeKeepsNull: proved only for basis vectors whose entries share a sign. With mixed signs `abs` can break M·v = 0, as `Scenarios.MixedSignUnbalanced` shows, so no stronger contract holds for the code as written.
- Balance.PrintedCoefficientsConserve: conservation is proved only when the first basis vector has entries of one sign, for the same reason.
- Checks the code does not perform are not modelled as behaviour: rejecting a zero coefficient, flagging an ambiguous null space, and rejecting an empty formula.
