# Normative approach to discrimination — Dafny model

This project models the normative discrimination checker of `NormativeApproach.py`. An
analyst declares, for a tabular dataset:

- the input columns `I`, the protected columns `P` and the outcome column `O`;
- accepted exceptions;
- thresholds.

The class `NormativeApproachDiscrimination` then reports three kinds of violation:

- **explicit**: protected columns that are used and not excepted;
- **implicit**: input columns, alone or joined into synthetic columns, whose normalized mutual
  information with a protected column is above a threshold;
- **indirect**: a disparate impact. Two subpopulations of a protected column differ in their rate
  of some outcome value by more than a proportion, and a chi-squared test finds the difference
  significant.

Modules:

- `Wrappers`: `Option` and `Result`.
- `Seqs`: sets of sequences, duplicates, enumerations, flat-map.
- `Text`: `'+'.join`, `str.split` and `str.strip`.
- `Combinatorics`: `itertools.combinations` and binomial counts.
- `Order`: Python's `<` on strings and the ascending enumeration of a set, `sorted(set(xs))`.
- `Tables`: the dataset as a map from column name to a column of strings, all of one height, plus
  value counts.
- `Explicit`, `Implicit`, `Indirect`: the three checks.
- `Normative`: the configuration, the exceptions, the report, and the class with its constructor
  and `Run`.

The code that works step by step is modelled as methods with loops:

- adding the synthetic columns;
- computing the score matrix;
- walking the matrix;
- scanning the exceptions;
- the triple loop of the indirect check.

Each of these methods is proved equal to a specification function, and the properties are proved
as lemmas about those functions. The two library computations are parameters of the model and are
stored in the object:

- sklearn's `normalized_mutual_info_score`, of type `Scorer`;
- scipy's `chi2_contingency`, of type `Chi2Test`.

Python's `set` has no defined iteration order, and the indirect check visits the values of
`list(set(column))` (lines 203, 210). `CheckIndirectDiscrimination` models that code as written:
`Enumerate` chooses any duplicate-free enumeration of each set, the orders used are returned as
ghost outputs, and the contract is stated in terms of them. The disparity test at line 216 runs in
one direction only, on each pair in the order `combinations` takes it from the visiting order
(lines 210-211), and with a proportion in (0, 1] it passes in at most one direction for a given
outcome value (`OneDirectionPerOutcome`). The visiting order therefore decides whether one
imbalance is reported as (M, F) for one outcome value or as (F, M) for the other, and an exception
accepted from one run does not cover what a run with the other order reports (see "## Findings"). `CheckIndirectDiscriminationSorted` is the corrected check: it visits every set
in ascending order, and `Run` uses it.

Four behaviours of the code that the model keeps:

- A column mismatch error carries the whole required list `I + P + [O]` (line 262).
- Each pair of subpopulations is compared in one direction only, the order `combinations` gives
  (lines 210-212).
- An indirect exception matches a finding's value pair as an ordered tuple (line 167).
- An implicit exception matches a finding's member columns as an ordered list (line 74).

## Model

| member | source | states |
|---|---|---|
| Explicit.ExplicitFindings | NormativeApproach.py:53 | a column is an explicit violation exactly when it is in `P` and not in `E` |
| Explicit.ExplicitWithoutExceptions | NormativeApproach.py:53 | with no exceptions every protected column is reported, each once |
| Explicit.ExplicitAllExcepted | NormativeApproach.py:53 | when every protected column is excepted nothing is reported |
| Explicit.ExplicitSuppression | NormativeApproach.py:53 | adding the violations to the exceptions silences the next run |
| Combinatorics.CombinationsAreSubsequences | NormativeApproach.py:104 | `combinations(I, k)` yields exactly the order-preserving selections of `k` elements |
| Combinatorics.CombinationsCount | NormativeApproach.py:104 | `combinations(I, k)` yields C(\|I\|, k) lists |
| Combinatorics.CombinationsDistinct | NormativeApproach.py:104 | over distinct columns, no combination is produced twice |
| Combinatorics.PairCombinationsDistinct | NormativeApproach.py:211 | over distinct values, `combinations(vs, 2)` lists no pair twice and lists C(\|vs\|, 2) pairs |
| Combinatorics.PairCombinationsMembers | NormativeApproach.py:211 | `(x, y)` is a pair of `combinations(vs, 2)` exactly when `x` comes before `y` in `vs` |
| Implicit.NewColumnsAreSizedCombinations | NormativeApproach.py:94-105 | the combinations explored are those of sizes 2 up to the ceiling: \|I\| with no limit, else the smaller of the limit and \|I\| |
| Implicit.NewColumnsMembers | NormativeApproach.py:94-105 | a list is explored exactly when it selects, in order, 2 to ceiling input columns |
| Implicit.NewColumnsCount | NormativeApproach.py:94-105 | C(\|I\|,2) + … + C(\|I\|,c) combinations are explored, where c is the ceiling |
| Implicit.NoNewColumnsBelowTwo | NormativeApproach.py:94-105 | a limit of 1 or less (zero and negative included) adds no synthetic column |
| Implicit.NewColumnsFromInputs | NormativeApproach.py:104-105 | every synthetic column is made of at least two input columns |
| Implicit.AddCombinedColumns | NormativeApproach.py:106-108 | the working copy is the table with one column added per combination, in order |
| Implicit.AugmentKeepsOriginals | NormativeApproach.py:106-108 | when no column name contains `+`, adding synthetic columns leaves the dataset's columns unchanged |
| Implicit.AugmentCombines | NormativeApproach.py:106-108 | when no column name contains `+`, each synthetic column holds its members' original values, joined by `_` row by row |
| Text.SplitJoin | NormativeApproach.py:137 | splitting `'+'.join(members)` on `+` gives the members back when none contains `+` |
| Text.JoinSplit | NormativeApproach.py:108 | joining the pieces of a split gives the name back |
| Implicit.FactorPairsIndex | NormativeApproach.py:112-122 | entry `(i, j)` of the matrix, in row-major order, pairs the i-th candidate with the j-th protected column |
| Implicit.NmiValues | NormativeApproach.py:113-119 | one score per pair, in order: 0 for a column paired with itself, the scorer's value otherwise |
| Implicit.CoveredByImplicitException | NormativeApproach.py:73-76 | true exactly when an exception has the same ordered member list and protected column |
| Implicit.OrderedExceptionMatch | NormativeApproach.py:74 | an exception for `['a','b']` does not cover a finding for `['b','a']` |
| Implicit.CollectImplicit | NormativeApproach.py:131-142 | the row-by-row walk keeps, in order, the entries strictly above the threshold that no exception covers |
| Implicit.ImplicitCandidatesMembers | NormativeApproach.py:131-142 | a finding is kept exactly when no exception covers it and some entry above the threshold gives it |
| Implicit.CheckImplicitDiscrimination | NormativeApproach.py:79-144 | the method's result is the specified list of implicit findings |
| Implicit.ImplicitFindingIff | NormativeApproach.py:131-142 | the finding of matrix entry `(i, j)` is reported exactly when its score is strictly above the threshold and no exception covers it |
| Implicit.ImplicitFindingMembers | NormativeApproach.py:104-139 | when no input name contains `+`, each finding names a protected column and an ordered selection of 1, or 2 to ceiling, input columns |
| Implicit.CandidateMembers | NormativeApproach.py:137-138 | when no input name contains `+`, splitting the i-th candidate name on `+` gives the input column itself, or the combination that made the synthetic column |
| Implicit.ImplicitRerunSilenced | NormativeApproach.py:131-142 | re-running with every finding added as an exception reports nothing |
| Tables.CountPositive | NormativeApproach.py:214-215 | a value's row count is positive exactly when the value occurs, and is at most the height |
| Tables.CountBothAtMost | NormativeApproach.py:214-215 | the rows with `p == v` and `O == o` are no more than the rows with `p == v` |
| Indirect.Rate | NormativeApproach.py:214-215 | a subpopulation's outcome rate lies in [0, 1] |
| Indirect.RatioOf | NormativeApproach.py:232 | the ratio is infinite exactly when `v2a == 0`; otherwise `ratio * v2a == v1a` |
| Indirect.SeenOutcomesMembers | NormativeApproach.py:219-222 | the table keeps exactly the outcome values observed in either subpopulation |
| Indirect.ContingencyShape | NormativeApproach.py:219-223 | the observed-count table has two rows of equal length and no column of zeros |
| Indirect.CoveredByIndirectException | NormativeApproach.py:165-171 | true exactly when an exception matches `P`, the ordered pair `Pv`, `O` and `Ov` |
| Seqs.Enumerate | NormativeApproach.py:203-210 | the list holds every value of the set exactly once |
| Order.SortedEnumerate | NormativeApproach.py:203-210 | the corrected visiting order: every value of the set exactly once, in ascending order, and equal to the one such list |
| Order.AscendingUnique | NormativeApproach.py:203-210 | a set has exactly one ascending enumeration, so the corrected order depends on the values alone |
| Order.SortedOfSpec | NormativeApproach.py:203-210 | the ascending enumeration lists every value of the set once, in ascending order |
| Indirect.Compare | NormativeApproach.py:214-236 | one comparison adds its finding when both tests pass and no exception covers it, and nothing otherwise |
| Indirect.ComparePair | NormativeApproach.py:213-236 | one pair of subpopulations yields the findings of its comparisons, in outcome order |
| Indirect.CompareColumn | NormativeApproach.py:210-236 | one protected column yields the findings of its pairs, in pair order |
| Indirect.CheckIndirectDiscrimination | NormativeApproach.py:174-238 | the visiting orders enumerate the observed values and the result is the specified list of indirect findings; no reported finding is covered by an exception, and a proportion of 0 or less reports nothing |
| Indirect.CheckIndirectDiscriminationSorted | NormativeApproach.py:174-238 | with every set visited in ascending order, the result is the specified list of indirect findings for those orders; no reported finding is covered by an exception, and a proportion of 0 or less reports nothing |
| Indirect.ColumnTrialsMembers | NormativeApproach.py:211-213 | a comparison is made for column `p` exactly for a listed pair and an outcome value |
| Indirect.ColumnTrialsDistinct | NormativeApproach.py:211-213 | distinct pairs and distinct outcome values give \|pairs\| · \|outcomes\| comparisons, none made twice |
| Indirect.ComparisonsOnce | NormativeApproach.py:203-215 | a protected column of m distinct values gets m(m-1)/2 · \|outcomes\| comparisons, none made twice |
| Indirect.IndirectFindingsFrom | NormativeApproach.py:208-236 | a finding is reported exactly when some examined comparison gives it |
| Indirect.ExaminedObserved | NormativeApproach.py:203-215 | every examined comparison is about values that occur in the dataset, so both rates are defined |
| Indirect.IndirectFindingsMembers | NormativeApproach.py:216-236 | a finding is reported exactly when no exception covers it and some examined comparison passes the disparity test and the p-value gate and gives it |
| Indirect.FindingPairInOrder | NormativeApproach.py:210-229 | a finding names its two values, stripped, in the order they were visited, the earlier one first |
| Indirect.PairExaminedOnce | NormativeApproach.py:210-212 | two distinct observed values are compared in exactly one order; no pair repeats and no value is paired with itself |
| Indirect.NoDisparityWithoutProportion | NormativeApproach.py:216 | with a proportion of 0 or less, no pair of rates is disparate |
| Indirect.NoFindingsWithoutProportion | NormativeApproach.py:216 | with a proportion of 0 or less, nothing is reported |
| Indirect.DisparityOrdersRates | NormativeApproach.py:216-232 | with a proportion in (0, 1], a disparity means `v1a > v2a`, and a finite ratio is above 1 |
| Indirect.FindingRatioAboveOne | NormativeApproach.py:216-232 | with a proportion in (0, 1], every reported finite ratio is above 1 |
| Indirect.OneDirectionPerOutcome | NormativeApproach.py:216 | with a proportion in (0, 1], the disparity test passes in at most one direction for a pair and an outcome value |
| Indirect.AsExceptions | NormativeApproach.py:165-169 | the exception made from each finding covers it |
| Indirect.IndirectRerunSilenced | NormativeApproach.py:208-236 | re-running with the same visiting orders and every finding added as an exception reports nothing |
| Indirect.ReversedOrderNotSilenced | NormativeApproach.py:167-210 | on 20 rows, ten of (M, yes) then ten of (F, no), with proportion 0.8, threshold 0.05 and the test answering as `chi2_contingency` does for that table (chi-squared 16.2, p ≈ 5.7e-5): the finding accepted from a run that visits M before F does not silence the mirrored disparity in a run that visits F before M |
| Indirect.SortedRerunSilenced | NormativeApproach.py:165-236 | with sets visited in ascending order, re-running over the same data with every finding added as an exception reports nothing |
| Text.StripBorders | NormativeApproach.py:228-231 | a stripped string neither starts nor ends with white space |
| Text.StripIdempotent | NormativeApproach.py:228-231 | stripping twice is stripping once |
| Normative.ValidateAccepts | NormativeApproach.py:255-262 | a configuration passes exactly when `I + P + [O]` names no column twice and every one is a dataset column; `I`, `P` and `O` then take disjoint roles |
| Normative.NormativeApproachDiscrimination.constructor | NormativeApproach.py:17-39 | the object holds the dataset, the configuration, the exceptions and the four thresholds it is given |
| Normative.NormativeApproachDiscrimination.Run | NormativeApproach.py:241-295 | a configuration error fails the run before any check runs; otherwise the report holds the explicit, implicit and indirect violations, the indirect check visiting every set in ascending order |

## Left out

- Reading the CSV file (`pd.read_csv`) and loading the configuration module (lines 25-34) are
  left out. The constructor takes the already loaded dataset, configuration, exceptions and
  thresholds.
- Every cell is a string. Numeric cells of a loaded CSV are not modelled. There, `'_'.join` at
  line 108 raises a `TypeError` when a combined input column holds a non-string cell, which
  aborts the run, and `.strip()` at lines 228-231 would fail.
- The `verbose` flag is left out, with every output it controls: the matrix print at lines
  124-128 and `pprint` at lines 293-294.
- The warning printed when `I` has more than five columns (lines 263-268) is left out. It has
  no effect on the result.
- The code that silences sklearn's warnings (lines 1-5) is left out.
- Normalized mutual information and `chi2_contingency` are left out. They are library numerics,
  taken as the parameters `nmi` and `chi2`.
- The model uses exact reals. Floating-point arithmetic is not modelled, so neither is `np.Inf`
  beyond the `Infinity` ratio.
- Indirect.FindingOf: the ratio is exact, not `round(v1a/v2a, 4)`; rounding to four decimals
  is not modelled.
- Implicit.Candidate: the correlation is exact, not `round(score, 4)`.
- Explicit.CheckExplicitDiscrimination: the result is a set, not the list `list(set(P) - set(E))`.
  That list's order is Python's unspecified set order.
- Indirect.Contingency: the rows are given as `(v1, v2)`, and the columns in the order the
  outcome values are visited, keeping those observed in either subpopulation. `pd.crosstab`
  sorts both rows and columns by label, and the margins it adds are sliced off (lines 220-223).
  The chi-squared statistic, p-value and degrees of freedom do not change when rows or
  columns are permuted.
- Python's set iteration order (lines 203, 210) is left out. In `CheckIndirectDiscrimination`
  it is an arbitrary duplicate-free enumeration chosen by `Enumerate`.
- Normative.NormativeApproachDiscrimination.Run: the indirect check visits every set in
  ascending order, the corrected behaviour under "## Findings". The code's `list(set(...))`
  order is modelled by `Indirect.CheckIndirectDiscrimination` alone.
- The text of each `ValueError` message (lines 258, 260, 262) is left out. The error is a
  `ConfigError` value; a column mismatch carries the required column list.
- The `PNU` configuration entry is carried in `Config` and never used, as in the code.
- A pandas `DataFrame` as a general structure is left out. The dataset is a map from column
  names to equal-height columns; `df.copy()` at line 106 is a value copy.

## Findings

| source | as written | input that shows it | evidently intended | confidence | as-written member | corrected member |
|---|---|---|---|---|---|---|
| NormativeApproach.py:203-210 | the values are visited in `list(set(...))` order, which for strings can differ from one Python process to the next, and each pair is tested in that one direction only (lines 210-211, 216); the visiting order decides whether one imbalance is reported as (M, F) for one outcome value or as (F, M) for the other, so an exception accepted from one run does not cover what the other reports | 20 rows, ten with p = M and O = yes, ten with p = F and O = no; proportion 0.8, minimum p-value 0.05. Each comparison's table of counts is [[10, 0], [0, 10]], Yates-corrected chi-squared 16.2, p ≈ 5.7e-5. Visiting M before F reports (M, F) for yes; with that finding accepted, visiting F before M reports (F, M) for no | an accepted disparity stays accepted on later runs over the same data, for instance by visiting `sorted(set(...))` | medium; not executed | Indirect.ReversedOrderNotSilenced | Indirect.SortedRerunSilenced |
