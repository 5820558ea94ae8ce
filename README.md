# gcages parallel runner, test helpers and composite-history selection, in Dafny

This project models three sequential pieces of the emissions-harmonisation
repository and proves properties of the model:

- `gcages.parallelisation`:
  - the grouping guard `assert_only_working_on_variable_unit_variations`;
  - the result contract of `run_parallel`: serial in-order map, pool
    results in completion order, the choice of multiprocessing context, and
    failure propagation.
- `gcages.testing`:
  - the AR6 emissions and temperatures file names, including the
    sanitisation of `/` and space to `_`;
  - `create_model_scenario_test_cases`;
  - the index-label check that opens `assert_frame_equal`.
- The composite-history notebook (`notebooks/0201_create-composite-history.py`):
  - the duplicate-index guards on the CEDS and biomass-burning inputs;
  - the `ceds_iteration` check;
  - the `global_variable_sources` table and the loop that builds the global
    composite from it;
  - `transform_rcmip_to_iamc_variable`.

Tables are abstracted to their index. A row maps level names (`model`,
`scenario`, `region`, `variable`, `unit`, ...) to string labels; the numeric
year columns are not modelled. Modules, one file each:

| file | module | contents |
|---|---|---|
| `wrappers.dfy` | `Wrappers` | `Option`, `Result`, and `Outcome` (pass or fail with an error) |
| `tables.dfy` | `Tables` | rows, tables, label sets, pandas' `unique` (first-appearance order) |
| `strings.dfy` | `Strings` | Python's `str.replace`, including the empty-pattern case |
| `parallelisation.dfy` | `Parallelisation` | the guard and `run_parallel` |
| `testing.dfy` | `Testing` | file names, test cases, index-label check |
| `testing_examples.dfy` | `TestingExamples` | worked AR6 file names |
| `composite_history.dfy` | `CompositeHistory` | the notebook's guards, selection loop and renaming |

How `run_parallel` is modelled:
- The called function is `f: (U, A) -> Result<T, E>`. `A` stands for the
  shared `*args, **kwargs`, and a `Failure` is an exception raised by the call.
- The order in which `as_completed` yields the futures is a parameter. It must
  be a permutation of the input positions, because each future is yielded
  exactly once.
- Whether the platform offers the fork context is a boolean parameter.
- `MapSerially` and `MapInPool` are imperative, with loops. Each is proved
  against a specification function (`Gather` of the calls, in input order or
  in completion order). The lemmas about `Gather` and `Permute` then give the
  promised properties.

`transform_rcmip_to_iamc_variable` and the composite loop are likewise methods
with loops, proved against `ApplyReplacements` and `Composite`.

Two behaviours worth stating directly:
- Any `n_processes` other than 1 takes the pool branch. The context is chosen
  first, and then `ProcessPoolExecutor` raises `ValueError` for a value below
  1. `RunParallel` models that error as `MaxWorkersNotPositive`.
- The guard reports `pix.unique`, in first-appearance order, and the model
  keeps that order.

## Model

| member | source | states |
|---|---|---|
| Tables.Unique | gcages/src/gcages/parallelisation.py:42 | the distinct elements, each once, exactly those of the input, the first element first |
| Tables.UniqueInOrder | gcages/src/gcages/parallelisation.py:42 | first-appearance order: of two kept elements, the earlier one occurs in the input before the later one first occurs |
| Tables.UniqueAtMostOne | gcages/src/gcages/parallelisation.py:44 | at most one distinct element exactly when all elements are equal |
| Parallelisation.AssertOnlyWorkingOnVariableUnitVariations | gcages/src/gcages/parallelisation.py:41-45 | passes iff all rows agree on every level other than `variable` and `unit`; on failure, reports more than one combination, each once, exactly the combinations that occur |
| Parallelisation.GuardIgnoresVariableAndUnit | gcages/src/gcages/parallelisation.py:41 | changing only the `variable`/`unit` labels never changes the outcome or the report |
| Parallelisation.GuardRejectsTwoModels | gcages/src/gcages/parallelisation.py:42-45 | two rows with different `model` labels make the guard fail, and the report names both models |
| Parallelisation.GuardPassesEmptyTable | gcages/src/gcages/parallelisation.py:44 | a table without rows passes |
| Parallelisation.Gather | gcages/src/gcages/parallelisation.py:110-113 | collecting outcomes succeeds iff every outcome is a value; it then returns all values in order, and otherwise the first exception met |
| Parallelisation.GatherFailsAt | gcages/src/gcages/parallelisation.py:110-113 | the exception re-raised is the one at the first failing position |
| Parallelisation.GatherSucceeds | gcages/src/gcages/parallelisation.py:110-113 | when all outcomes are values, exactly those values in order are returned |
| Parallelisation.PermutePreservesMultiset | gcages/src/gcages/parallelisation.py:138-145 | taking every position once, in completion order, keeps the multiset of elements |
| Parallelisation.GatherPermuted | gcages/src/gcages/parallelisation.py:138-145 | collecting in completion order succeeds iff collecting in input order does, with the same multiset of values |
| Parallelisation.GatherCalls | gcages/src/gcages/parallelisation.py:110-113 | the serial collection, stated in terms of `f`: success iff every call succeeds, `result[i] == f(xs[i])`, otherwise the first failing call's exception |
| Parallelisation.GatherCallsPermuted | gcages/src/gcages/parallelisation.py:126-145 | the pool collection, stated in terms of `f`: success iff every call succeeds, `result[k] == f(xs[completion[k]])`, the same multiset as the serial result, otherwise the exception of the first failure in completion order |
| Parallelisation.MapSerially | gcages/src/gcages/parallelisation.py:108-113 | the serial loop computes the in-order collection of the calls |
| Parallelisation.MapInPool | gcages/src/gcages/parallelisation.py:123-145 | submitting one task per input and draining in completion order computes the completion-order collection |
| Parallelisation.RunParallel | gcages/src/gcages/parallelisation.py:108-147 | context: none when serial; a supplied context kept; otherwise fork if available, else the platform default. Fewer than 1 process is an error. Success iff every call succeeds. Serial result is the in-order map; pool result is in completion order and a permutation of the serial one. The re-raised exception is the first in input order (serial) or in completion order (pool) |
| Parallelisation.DoubleExample | gcages/src/gcages/parallelisation.py:108-147 | doubling [1, 2, 3] gives [2, 4, 6] serially and the multiset {2, 4, 6} in a pool |
| Strings.ReplaceAll | gcages/src/gcages/testing.py:115 | Python's `str.replace`: every non-overlapping occurrence of the pattern, scanning from the left, is replaced; an empty pattern inserts the replacement before every character and at the end. Its properties are the `Replace*` lemmas below |
| Strings.ReplaceLength | notebooks/0201_create-composite-history.py:477 | a replacement no longer than the pattern never lengthens the string, and one no shorter never shortens it |
| Strings.ReplaceAbsent | notebooks/0201_create-composite-history.py:477 | `s.replace(old, new)` leaves `s` unchanged when `old` is non-empty and does not occur |
| Strings.ReplaceChar | gcages/src/gcages/testing.py:115 | replacing one character by one character keeps the length and maps each character |
| Strings.ReplaceSkip | notebooks/0201_create-composite-history.py:477 | a prefix lacking the pattern's first character passes through `replace` unchanged |
| Strings.ReplaceMiddle | notebooks/0201_create-composite-history.py:477 | a single occurrence after such a prefix is replaced and the rest kept |
| Strings.ReplaceAtEnd | notebooks/0201_create-composite-history.py:477 | a single occurrence at the end, after such a prefix, is replaced |
| Strings.RemoveMiddle | notebooks/0201_create-composite-history.py:477 | replacing by the empty string removes the only occurrence |
| Testing.Sanitise | gcages/src/gcages/testing.py:115 | `.replace("/", "_").replace(" ", "_")` keeps the length and turns each `/` and space into `_`, leaving every other character |
| Testing.SanitisedHasNoSlashOrSpace | gcages/src/gcages/testing.py:115 | a sanitised name holds neither `/` nor a space |
| Testing.SanitiseIdempotent | gcages/src/gcages/testing.py:115 | sanitising twice is sanitising once |
| Testing.SanitiseConcat | gcages/src/gcages/testing.py:115 | sanitising distributes over concatenation |
| Testing.SanitiseClean | gcages/src/gcages/testing.py:115 | a name without `/` and spaces is left unchanged |
| Testing.Ar6FileName | gcages/src/gcages/testing.py:114-115 | the name is `ar6_scenarios__` + sanitised model + `__` + sanitised scenario + suffix, and holds no `/` or space |
| Testing.EmissionsFileName | gcages/src/gcages/testing.py:114-115 | the emissions file name has that shape, with suffix `__emissions.csv` |
| Testing.TemperaturesFileName | gcages/src/gcages/testing.py:249-250 | the temperatures file name has that shape, with suffix `__temperatures.csv` |
| TestingExamples.EmissionsFileNameExample | gcages/src/gcages/testing.py:29 | the AR6 pathway (`AIM/CGE 2.2`, `EN_NPi2020_900f`) gives `ar6_scenarios__AIM_CGE_2.2__EN_NPi2020_900f__emissions.csv` |
| TestingExamples.SanitiseCleanExample | gcages/src/gcages/testing.py:29 | `EN_NPi2020_900f` holds no `/` or space and is kept as it is |
| TestingExamples.SanitiseSlashAndSpaceExample | gcages/src/gcages/testing.py:115 | `AIM/CGE 2.2` sanitises to `AIM_CGE_2.2` |
| TestingExamples.SanitiseModelExample | gcages/src/gcages/testing.py:36 | `REMIND-MAgPIE 2.1-4.3` sanitises to `REMIND-MAgPIE_2.1-4.3` |
| TestingExamples.SanitiseScenarioExample | gcages/src/gcages/testing.py:36 | `DeepElec_SSP2_ HighRE_Budg900` sanitises to `DeepElec_SSP2__HighRE_Budg900`, which holds the `__` separator |
| TestingExamples.TemperaturesFileNameExample | gcages/src/gcages/testing.py:249-250 | the temperatures file name of that pathway |
| Testing.StrLessTransitive | gcages/src/gcages/testing.py:87 | Python's string order is transitive |
| Testing.StrLessTotal | gcages/src/gcages/testing.py:87 | of two different strings, one is smaller |
| Testing.Insert | gcages/src/gcages/testing.py:87 | adding a key to sorted distinct keys keeps them sorted and distinct, and adds exactly that key |
| Testing.GroupKeys | gcages/src/gcages/testing.py:87 | the `groupby(["Model", "Scenario"])` keys are strictly sorted and are exactly the pairs that occur |
| Testing.CaseFor | gcages/src/gcages/testing.py:86 | `pytest.param(model, scenario, id=f"{model}__{scenario}")`; stated by `CreateModelScenarioTestCases` |
| Testing.CreateModelScenarioTestCases | gcages/src/gcages/testing.py:85-88 | a case exists iff its (model, scenario) pair occurs in the input and its id is `model + "__" + scenario`; cases are strictly sorted by key |
| Testing.TestCasesDistinct | gcages/src/gcages/testing.py:85-88 | no (model, scenario) pair has two cases |
| Testing.TestCasesDependOnlyOnPairSet | gcages/src/gcages/testing.py:87 | inputs with the same set of pairs give the same cases, whatever their order and repetitions |
| Testing.SortedUnique | gcages/src/gcages/testing.py:87 | two key-sorted case lists with the same members are equal |
| Testing.TestCaseIdsCanCollide | gcages/src/gcages/testing.py:86 | the pairs (`a__b`, `c`) and (`a`, `b__c`) give two cases with one id |
| Testing.SymmetricDifference | gcages/src/gcages/testing.py:318-320 | the labels on exactly one side; empty iff both sides are equal |
| Testing.CheckLevels | gcages/src/gcages/testing.py:317-323 | passes iff every level listed exists in `exp` with the same label set; otherwise it stops at the first failing level, with a KeyError if `exp` lacks that level and otherwise the non-empty symmetric difference |
| Testing.CheckIndexLabels | gcages/src/gcages/testing.py:317-323 | passes iff every index level of `res` exists in `exp` with the same set of labels |
| Testing.CheckIndexLabelsReflexive | gcages/src/gcages/testing.py:317-323 | a frame passes against itself |
| Testing.CheckIndexLabelsSymmetric | gcages/src/gcages/testing.py:317-323 | with the same index levels on both sides, swapping `res` and `exp` does not change the verdict |
| Testing.CheckIndexLabelsRejectsExtraLabel | gcages/src/gcages/testing.py:317-323 | a label present in `exp` only makes the check fail |
| CompositeHistory.NotAvailableMessage | notebooks/0201_create-composite-history.py:448 | the message starts with the variable and ends with the source |
| CompositeHistory.HasDuplicates | notebooks/0201_create-composite-history.py:117 | `index.duplicated().any()` holds iff some index entry occurs twice |
| CompositeHistory.ConcatRejectingDuplicates | notebooks/0201_create-composite-history.py:104-118 | the concatenation is returned iff it has no duplicate entry; otherwise an AssertionError |
| CompositeHistory.ConcatOfDisjointParts | notebooks/0201_create-composite-history.py:123-136 | duplicate-free parts with no common entry pass the guard |
| CompositeHistory.ConcatOfOverlappingParts | notebooks/0201_create-composite-history.py:135-136 | an entry in both parts is rejected |
| CompositeHistory.WorldModels | notebooks/0201_create-composite-history.py:176-192 | exactly the model labels of the World rows |
| CompositeHistory.CedsIteration | notebooks/0201_create-composite-history.py:192-196 | succeeds iff the CEDS World rows name exactly one model, which it returns. Several models is an error carrying them all. No World rows is the IndexError of `[0]` |
| CompositeHistory.Select | notebooks/0201_create-composite-history.py:445-446 | `all_sources.loc[source_loc]`: the input rows whose `variable` is the key and whose `model` is the source, in input order; stated by `SelectMembers` and `SelectMultiplicity` |
| CompositeHistory.SelectMembers | notebooks/0201_create-composite-history.py:445-446 | the rows kept are exactly those whose `variable` is the key and whose `model` is the mapped source |
| CompositeHistory.SelectMultiplicity | notebooks/0201_create-composite-history.py:445-446 | a kept row keeps all its copies |
| CompositeHistory.Composite | notebooks/0201_create-composite-history.py:451-453 | the selections of all entries concatenated in entry order; stated by `CompositeMembers`, `CompositeMultiplicity` and `CompositeIsSubMultiset` |
| CompositeHistory.ScanSelections | notebooks/0201_create-composite-history.py:443-451 | the loop stops at the first entry that selects nothing, or after the last entry; every entry before the stop selects rows, and the list collected so far is the concatenation of their selections |
| CompositeHistory.CollectSelections | notebooks/0201_create-composite-history.py:443-451 | succeeds iff every entry selects some row, and then returns the selections concatenated in entry order; otherwise the AssertionError "not available" for the first entry that selects nothing |
| CompositeHistory.BuildGlobalComposite | notebooks/0201_create-composite-history.py:443-453 | succeeds iff there is at least one entry and every entry selects some row; then returns the selections concatenated in entry order. With no entries, `pix.concat([])` raises (`NoObjectsToConcatenate`); otherwise "not available" for the first entry that selects nothing |
| CompositeHistory.CompositeMembers | notebooks/0201_create-composite-history.py:443-453 | a row is in the composite iff it is an input row matching some entry's (variable, source) |
| CompositeHistory.EveryEntryContributes | notebooks/0201_create-composite-history.py:447-451 | every entry that selects rows contributes a row of its variable and source |
| CompositeHistory.CompositeMultiplicity | notebooks/0201_create-composite-history.py:444-453 | with distinct variables, a row occurs in the composite as often as in the input if it matches an entry, otherwise not at all |
| CompositeHistory.CompositeIsSubMultiset | notebooks/0201_create-composite-history.py:444-453 | with distinct variables, no row is taken more often than it occurs |
| CompositeHistory.GlobalVariableSources | notebooks/0201_create-composite-history.py:387-440 | 52 entries, in the dictionary's order; the fourteenth, CO2 from energy and industry, is taken from the CEDS iteration |
| CompositeHistory.CreateGlobalComposite | notebooks/0201_create-composite-history.py:117-451 | the guards run in the notebook's order (CEDS duplicates, biomass-burning duplicates, CEDS iteration), and then the composite is built from the table for that iteration |
| CompositeHistory.TransformRcmipToIamcVariable | notebooks/0201_create-composite-history.py:465-479 | the loop applies the five replacements in the listed order, each to the previous result |
| CompositeHistory.ApplyReplacements | notebooks/0201_create-composite-history.py:469-477 | `res = res.replace(old, new)` for each pair of `RcmipReplacements` in turn, each on the previous result; stated by `ApplyStep`, `ApplyFive`, `ApplyReplacementsAbsent` and `ApplyReplacementsShortens` |
| CompositeHistory.ApplyReplacementsShortens | notebooks/0201_create-composite-history.py:476-477 | pairs whose replacements are no longer than their patterns never lengthen the name |
| CompositeHistory.ApplyReplacementsAbsent | notebooks/0201_create-composite-history.py:476-477 | a name holding none of the patterns is unchanged |
| CompositeHistory.RcmipNameUnchanged | notebooks/0201_create-composite-history.py:467-479 | a name holding none of the five old substrings is returned unchanged |
| CompositeHistory.ApplyStep | notebooks/0201_create-composite-history.py:476-477 | one pass of the loop: applying the pairs from position i is the i-th `replace` followed by the remaining pairs |
| CompositeHistory.ApplyFive | notebooks/0201_create-composite-history.py:469-477 | a list of five pairs is five `replace` calls, each on the previous result |
| CompositeHistory.RcmipHfcRenamed | notebooks/0201_create-composite-history.py:472 | `...HFC4310mee` becomes `...HFC43-10` |
| CompositeHistory.RcmipHfc4310Renamed | notebooks/0201_create-composite-history.py:472 | `HFC4310mee` becomes `HFC43-10` |
| CompositeHistory.RcmipAfoluRenamed | notebooks/0201_create-composite-history.py:473 | `...MAGICC AFOLU` becomes `...AFOLU` |
| CompositeHistory.RcmipFossilRenamed | notebooks/0201_create-composite-history.py:474 | `...MAGICC Fossil and Industrial` becomes `...Energy and Industrial Processes` |
| CompositeHistory.RcmipPfcRenamed | notebooks/0201_create-composite-history.py:470-471 | a name whose last levels are F-Gases, PFC and a gas becomes the name with those two F-gas levels dropped, in order |
| CompositeHistory.RcmipDropFGases | notebooks/0201_create-composite-history.py:470 | the first replacement removes the F-Gases level, for a prefix without `F` and a gas without `-` |
| CompositeHistory.RcmipDropPfc | notebooks/0201_create-composite-history.py:471 | the second replacement removes the PFC level, for a prefix and a gas without `P` |

## Left out

- The process pool is not modelled: `ProcessPoolExecutor`, scheduling, pickling, fork and spawn mechanics, and pool teardown. This is concurrency; only its result and failure contract is modelled, with the completion order as a parameter.
- Parallelisation.RunParallel: the executor's extra `ValueError` for more than 61 workers on Windows is not modelled, because the platform is not a parameter of the model.
- Parallelisation.RunParallel: in the pool branch, calls after the first retrieved failure still run. Their side effects are not modelled, because `f` is pure in the model.
- Progress bars (`tqdm`), logging (`loguru`) and the `input_desc` labels are not modelled. They have no effect on results.
- CSV loading, `functools.cache` memoisation of the `get_ar6_*` loaders and of `get_all_model_scenarios`, and the notebook's `to_csv`/`mkdir` are not modelled. They are I/O. The file names are modelled; the `test_data_dir / name` path join is not.
- The `pix.ismatch` filters of `get_ar6_raw_emissions`, `get_ar6_harmonised_emissions` and `get_ar6_infilled_emissions` are not modelled. They are glob matching in a foreign library.
- The float comparison of `pd.testing.assert_frame_equal` after the label loop is not modelled. This is floating point.
- Testing.CheckLevels: the text of the AssertionError, and the sorted `Index` that `symmetric_difference` returns, are modelled as a set of labels.
- Testing.CreateModelScenarioTestCases: takes the two columns row by row. A missing `Model` or `Scenario` column (a KeyError) and rows with NaN keys (which `groupby` drops) are not modelled. The `pytest.param` objects are modelled as their model, scenario and id.
- The notebook's floating-point work is not modelled: the PRIMAP regression and scaling, the group sums that build `ceds_sum` and `all_sources`, interpolation, unit checks (`assert_units_match_wishes`) and plotting. `CompositeHistory.CreateGlobalComposite` therefore takes `all_sources` as a parameter.
- CompositeHistory.BuildGlobalComposite: the final `sort_index()` of the composite is not modelled. The result is the selections concatenated in entry order; the lemmas state its membership and multiplicities, which sorting does not change.
- CompositeHistory.GlobalVariableSources: the distinctness of its 52 keys is not proved (a dictionary's keys are distinct by construction). `CompositeMultiplicity` takes distinct keys as a precondition instead.
- CompositeHistory.RcmipHfcRenamed: stated for prefixes without the characters `-`, `P`, `H`, `M` (such as `Emissions|` or the empty prefix), not for every prefix.
- CompositeHistory.RcmipAfoluRenamed: stated for prefixes without the characters `-`, `P`, `H`, `M` (such as `Emissions|CO2|`), not for every prefix.
- CompositeHistory.RcmipFossilRenamed: stated for prefixes without `-`, `P`, `H`, `U`, `M` (such as `Emissions|CO2|`), not for every prefix.
- CompositeHistory.RcmipDropFGases: stated for prefixes without `F` and gas names without `-` (such as `Emissions|` and `C2F6`), not for every name.
- CompositeHistory.RcmipDropPfc: stated for prefixes and gas names without `P` (such as `Emissions|` and `C2F6`), not for every name.
- CompositeHistory.RcmipPfcRenamed: stated for prefixes and gas names that avoid the patterns' characters (such as `Emissions|` and `C2F6`), not for every name.
- The national-data branches that raise `NotImplementedError` for other CEDS or GFED options are not modelled. They are configuration, fixed in the notebook.
- The check that RCMIP's AR6 history holds 52 variables is not modelled. It depends on the RCMIP data file.
- `notebooks/2010_cmip7-scenariomip-get-default-aneris-harmonisation-methods.py` is not part of this model. It only loads databases and delegates to `aneris.default_methods` and `_convert_units_to_match`.
