# chisel-bootcamp notebook regression runner, in Dafny

`runtest.py` is the regression runner of the Chisel bootcamp. It executes
Jupyter notebooks and compares the errors their cells raise with a catalog
of expected error signatures. This project models the runner's logic and
proves what it guarantees:

- **Error extraction** (`Notebook`): the comprehension that collects every
  output whose `output_type` is `"error"` from an executed notebook. It
  keeps document order and skips cells that have no `"outputs"` field.
- **The expectation check** (`Check`, `CheckProperties`): `check_errors`.
  Each actual error's signature is the first 100 characters of its first
  traceback entry. Expected strings and signatures are paired by position
  with `zip_longest`, and the shorter list is padded with the sentinel
  `"-- No Error --"`. Each expected string must be a substring (Python `in`)
  of its partner. The lines written to standard error are returned as a
  sequence: a bar of 100 `=`, the header `Errors detected in <file>`, one
  `No match for ...` line per failing position, and a closing bar. Each
  line is a `Line` value (`Rule`, `Heading`, `NoMatch`) and `LineText`
  gives its text. The `for` loop (`ComparePairs`) is proved against the
  pure specification `CheckSpec`/`Diagnostics`.
- **The catalog** (`Catalog`, `CatalogProperties`): the `notebooks` dict,
  its 18 entries in source order, and Python's `sorted` on its keys.
- **The driver** (`RunTest`): the `__main__` block. It picks the run list
  from the arguments, then looks each notebook up, executes it and asserts
  the check, stopping at the first exception. Executing a notebook is a
  parameter `run: string -> Execution`, an oracle that returns the executed
  cells or an executor failure.

Python strings are `seq<char>`. `p in s` is `Text.Occurs` (the empty string
occurs everywhere), `s[:n]` is `Text.Truncate`, and the string order `<`
that `sorted` uses is `Text.Less`, compared code point by code point.
Exceptions the script can end with are values: `KeyError` for a name that
is not catalogued, `CalledProcessError` when the executor fails,
`IndexError` for an error output with an empty traceback, and
`AssertionError` when the check fails.

One might expect any difference in the number of errors to fail the check.
The code does not do that, and the model follows the code. A missing error is compared against the sentinel, so an expected
string that occurs in `"-- No Error --"` still passes: `"Error"` does
(`CheckProperties.SentinelAbsorbsError`). None of the catalogued
expectations occurs in the sentinel (`CatalogProperties.ExpectationsAvoidSentinel`),
so for the catalog as shipped a missing error always fails
(`CatalogProperties.CatalogShortfallFails`).

## Model

| member | source | states |
|---|---|---|
| Text.Occurs | runtest.py:72 | `p in s`: `p` is a prefix of `s` or occurs in the suffix of `s` after its first character; the empty string occurs everywhere, and nothing occurs in the empty string but the empty string |
| Text.OccursIffOffset | runtest.py:72 | `e in a` holds exactly when some offset of `a` carries `e`; the empty string occurs everywhere |
| Text.OffsetOf | runtest.py:72 | when `e in a` holds, some offset of `a` carries `e` |
| Text.OccursFromOffset | runtest.py:72 | `e` carried at any offset of `a` makes `e in a` hold |
| Text.OccursInTruncated | runtest.py:68-72 | a string occurs in `s[:100]` exactly when it occurs in `s` at an offset where it ends within the first 100 characters |
| Text.LongerNeverOccurs | runtest.py:72 | a string longer than `a` is never `in a` |
| Text.MissingCharNeverOccurs | runtest.py:72 | a string holding a character that `a` lacks is never `in a` |
| Text.Truncate | runtest.py:68 | `s[:n]` has at most `n` characters, is a prefix of `s`, and is all of `s` when `s` is short enough |
| Text.Less | runtest.py:134 | str `<` as `sorted` compares names: code-point lexicographic order, where a proper prefix is smaller and nothing is smaller than the empty string |
| Text.LessTransitive | runtest.py:134 | the string order `sorted` uses is transitive |
| Text.LessTotal | runtest.py:134 | two different strings are always ordered one way or the other |
| Text.LessAsymmetric | runtest.py:134 | the string order is asymmetric |
| Text.Decimal | runtest.py:76 | the index in a "No match" line is written with decimal digits only |
| Text.DecimalValue | runtest.py:76 | the digits written for an index spell that index (`DigitsValue(Decimal(n)) == n`) |
| Text.DecimalInjective | runtest.py:76 | different indices are written differently |
| Notebook.IsError | runtest.py:43 | `output.output_type == "error"`: an output is an error output exactly when its type is the string `error` |
| Notebook.ErrorsOf | runtest.py:42-43 | the errors kept from one output list are error outputs of that list, and no more of them than it has |
| Notebook.CellErrors | runtest.py:41-43 | one cell's error outputs: none when the cell has no "outputs" field, else the error outputs among them in order (its properties are those of `ErrorsOf`) |
| Notebook.ErrorOutputs | runtest.py:41-43 | every collected output has `output_type == "error"` |
| Notebook.ErrorsOfCount | runtest.py:42-43 | within an output list, each error output is kept as many times as it occurs and nothing else is kept |
| Notebook.ErrorsOfAppend | runtest.py:42-43 | within a cell the errors keep their order |
| Notebook.ErrorOutputsAppend | runtest.py:41-43 | across cells the errors keep document order: errors of `xs + ys` are errors of `xs` then errors of `ys` |
| Notebook.CellWithoutOutputsIgnored | runtest.py:41 | a cell without an "outputs" field contributes nothing, wherever it stands |
| Notebook.ErrorOutputsMembership | runtest.py:41-43 | an output is collected exactly when it is an error output of a cell that has outputs |
| Check.Signatures | runtest.py:68 | one signature per actual error, the first 100 characters of its first traceback entry; no result (IndexError) exactly when some traceback is empty |
| Check.PadAt | runtest.py:71 | element `i` of a list padded with the sentinel `"-- No Error --"` |
| Check.Matches | runtest.py:70-80 | the verdict of `check_errors` on signatures: every position below the longer length has its padded expected string occurring in its padded signature |
| Check.CheckSpec | runtest.py:56-80 | the result of `check_errors`: IndexError exactly when some error's traceback is empty; otherwise true exactly when the signatures match |
| Check.Repeat | runtest.py:74-79 | `c * n`: exactly `n` characters, each `c`; `Bar` is `"=" * 100` |
| Check.Header | runtest.py:75 | the header text `Errors detected in <file>` |
| Check.NoMatchText | runtest.py:76 | the text `No match for <i>-th expected error '<e>' got '<a[:100]>'` |
| Check.LineText | runtest.py:74-76 | the text of each `print`: the bar for a rule, `Header` for the heading, `NoMatchText` for a mismatch line |
| Check.Diagnostics | runtest.py:73-79 | everything `check_errors` prints for these signatures: nothing when no position fails, otherwise the bar, the header, one line per failing position of the whole `zip_longest` walk in order, and the closing bar (proved in `CheckProperties.DiagnosticsShape`) |
| Check.ZipLongest | runtest.py:71 | `zip_longest` yields as many pairs as the longer list, pair `i` being the two elements at `i` with the sentinel standing in past either end |
| Check.Mismatches | runtest.py:71-77 | the reported mismatches are failing positions, with the strings compared there, in strictly increasing index order |
| Check.MismatchesComplete | runtest.py:71-77 | every failing position is reported |
| Check.NoMismatchesIffAllOccur | runtest.py:71-77 | no mismatch is reported exactly when every pair matches |
| Check.NoMismatchesIffMatches | runtest.py:70-80 | the loop over the padded pairs finds no mismatch exactly when the padded lists match position by position |
| Check.ReportStep | runtest.py:72-76 | a new mismatch adds the bar and header only when it is the first one, then its own line |
| Check.ComparePairs | runtest.py:70-80 | the loop returns true exactly when every pair matches, and prints the report of all failing pairs followed by the closing bar |
| Check.CheckErrors | runtest.py:56-80 | IndexError exactly when some traceback is empty, with nothing printed; otherwise the result is true exactly when every padded position matches, and the lines printed are the diagnostics for the failing positions |
| CheckProperties.ClosingShape | runtest.py:73-79 | with failures: bar, header, one "No match" line per failure in order, closing bar; the header appears once and the bar exactly first and last |
| CheckProperties.LineTextsDiffer | runtest.py:74-79 | the bar, the header and a "No match" line never have the same text, so the printed text shows the same shape |
| CheckProperties.DigitsPrefixUnique | runtest.py:76 | a run of digits followed by a non-digit can be read back in one way only |
| CheckProperties.NoMatchTextSplit | runtest.py:76 | a "No match" line is the fixed opening, the decimal position, then text starting with '-' |
| CheckProperties.NoMatchTextsDistinct | runtest.py:76 | mismatches at different positions are reported by different lines |
| CheckProperties.DiagnosticsShape | runtest.py:70-80 | nothing is printed exactly when the check passes; otherwise the printed lines have the shape above |
| CheckProperties.ReportedIffFails | runtest.py:71-77 | a position is reported exactly when its padded expected string does not occur in its padded signature |
| CheckProperties.FileNameOnlyInHeader | runtest.py:75 | two calls that differ only in the file name print the same lines except the header |
| CheckProperties.EmptyListsPass | runtest.py:70-80 | no expected and no actual errors: the check passes and prints nothing |
| CheckProperties.PairwiseOccurrencePasses | runtest.py:71-72 | equal-length lists whose expected strings each occur in the signature at the same position pass |
| CheckProperties.FirstEntryWindow | runtest.py:68-72 | one expected error matches one actual error exactly when it occurs in the first traceback entry ending within its first 100 characters |
| CheckProperties.UnexpectedErrorFails | runtest.py:71-72 | an error where none is expected passes only if its signature contains the sentinel |
| CheckProperties.MissingErrorFails | runtest.py:71-72 | a missing error passes exactly when the expected string occurs in the sentinel |
| CheckProperties.SentinelAbsorbsError | runtest.py:71-72 | an expected "Error" with no actual error passes, so a length mismatch is not always a failure |
| CheckProperties.ShortfallNeedsSentinel | runtest.py:71-72 | with fewer signatures than expected strings, passing needs the first unmatched expected string to occur in the sentinel |
| CheckProperties.ExcessNeedsSentinel | runtest.py:71-72 | with more signatures than expected strings, passing needs the first extra signature to contain the sentinel |
| CheckProperties.OrderMatters | runtest.py:71-72 | matching is positional: the same errors in another order can fail |
| Catalog.ToMap | runtest.py:83-122 | the dict built from the entries has exactly the entries' names as keys |
| Catalog.Notebooks | runtest.py:83-122 | the `notebooks` dict, built from the 18 entries of the literal (`Entries`) in source order |
| Catalog.Names | runtest.py:83-122 | the names in the order iterating `notebooks` yields them |
| Catalog.KeysOf | runtest.py:83-122 | the entries' names in source order, which is the dict's iteration order when no name repeats, as holds for the catalog (`Catalog.NamesDistinct`) |
| Catalog.ToMapLookup | runtest.py:83-122 | with distinct names, each entry's expectations are what the dict holds for its name |
| Catalog.Insert | runtest.py:134 | inserting into an ascending list keeps it ascending and adds exactly one element |
| Catalog.Sort | runtest.py:134 | `sorted` returns an ascending permutation of its input |
| Catalog.AscendingDistinctStrict | runtest.py:134 | an ascending list without repetitions is strictly ascending |
| Catalog.DistinctIffSingles | runtest.py:134 | a list has no repetitions exactly when its multiset holds each element once |
| Catalog.DistinctCardinality | runtest.py:83-122 | a list without repetitions has as many distinct elements as entries |
| Catalog.NamesDistinct | runtest.py:83-122 | the catalog names each notebook once |
| Catalog.CatalogSize | runtest.py:83-122 | the catalog holds 18 notebooks, and iterating it yields each of them once |
| Catalog.CatalogLookup | runtest.py:83-122 | looking a catalogued notebook up gives the expectations its entry lists |
| CatalogProperties.ExpectationShape | runtest.py:83-122 | every expected signature is longer than the sentinel or contains a double quote |
| CatalogProperties.ExpectationsAvoidSentinel | runtest.py:71-72 | no catalogued expectation occurs in the sentinel |
| CatalogProperties.CatalogShortfallFails | runtest.py:71-72 | for a catalogued notebook, fewer error outputs than expected always fail the check |
| CatalogProperties.FirrtlNotebookCheck | runtest.py:121 | the 4.4 notebook passes with one error exactly when "FirrtlInternalException" ends within the first 100 characters of its first traceback entry |
| CatalogProperties.IntroNotebookCheck | runtest.py:86 | the introductory notebook passes with no errors and fails with one unless its signature contains the sentinel |
| CatalogProperties.NonexistentNotCatalogued | runtest.py:83-122 | "nonexistent.ipynb" is not catalogued |
| RunTest.Select | runtest.py:126-134 | `--help` as the first argument shows the usage; other arguments are the run list as given; no arguments give the catalog's names in ascending order, each as often as in the catalog |
| RunTest.DefaultRunList | runtest.py:133-134 | without arguments the run list has 18 names, strictly ascending, without repetitions, exactly the catalogued notebooks |
| RunTest.ExplicitRunList | runtest.py:131-132 | with arguments other than `--help` the run list is the arguments in the order given |
| RunTest.Passes | runtest.py:136-138 | a notebook passes when it is catalogued, executes, and its error outputs satisfy `CheckSpec` against its expectations |
| RunTest.Raised | runtest.py:136-138 | the exception a failing notebook raises, in the order the script meets them: KeyError, CalledProcessError, IndexError, AssertionError |
| RunTest.CheckLog | runtest.py:138 | the diagnostics `check_errors` prints for a notebook it gets as far as comparing |
| RunTest.RunOutcome | runtest.py:135-138 | the run: completed with every name run when all pass; otherwise aborted at the first failing name with its exception, the names before it run (and it too when its lookup succeeded), and its diagnostics only for a failed assertion |
| RunTest.FirstFailure | runtest.py:135-138 | the first position whose notebook does not pass: everything before it passes |
| RunTest.RunOne | runtest.py:136-138 | one turn raises nothing exactly when the notebook passes; otherwise it raises KeyError, CalledProcessError, IndexError or AssertionError in that order of checks; only a catalogued notebook is executed, and only a failed assertion leaves diagnostics |
| RunTest.RunNotebooks | runtest.py:135-138 | the loop ends exactly as `RunOutcome` says: completed, or aborted at the first failure with the notebooks run so far and the diagnostics printed |
| RunTest.FirstFailureAt | runtest.py:135-138 | the first failure is at `i` when everything before passes and `names[i]` does not |
| RunTest.CompletedIffAllPass | runtest.py:135-138 | the run completes exactly when every listed notebook passes |
| RunTest.RanIsPrefix | runtest.py:135-138 | fail-fast: the notebooks run are a prefix of the list, all catalogued, and all but the last passed |
| RunTest.AbortedAtFirstFailure | runtest.py:135-138 | an aborted run stops at a failing notebook after all before it passed, and nothing after it runs |
| RunTest.LogIffAssertionFailed | runtest.py:138 | diagnostics are written exactly when the run ends on a failed assertion |
| RunTest.KeyErrorBeforeRun | runtest.py:136-137 | an unknown name raises KeyError before it is executed and prints nothing |
| RunTest.UnknownFirstName | runtest.py:135-136 | an unknown name at the head of the list ends the run at once, with nothing run |
| RunTest.RunScript | runtest.py:124-138 | `--help` first shows the usage and runs nothing; otherwise the run is `RunOutcome` over the selected list |
| RunTest.DefaultRunNoKeyError | runtest.py:133-136 | without arguments no lookup can fail |

## Left out

- `_notebook_run` (runtest.py:13-53): changing directory, the temporary file, the `nbconvert` subprocess and reading the notebook back are I/O. Execution is the oracle parameter `run`, which returns either the executed cells or an executor failure (`CalledProcessError`). Only the error-collecting comprehension is modelled.
- `run_notebook.py` is not part of this model.
- Writing to standard error is not performed: `check_errors` returns the lines it would print, as `Line` values whose text is `LineText`.
- The `--help` text and `sys.exit(0)` (runtest.py:127-130) are modelled only as the outcome `UsageShown`.
- A notebook document is reduced to the fields the runner reads: each cell's optional `outputs` and each output's `output_type` and `traceback`. Traceback entries are assumed to be strings, so `str(...)` changes nothing.
- The concrete sorted order of the 18 catalog names is not proved entry by entry. The model proves `sorted`'s general properties (ascending permutation) and that the default run list is strictly ascending and holds each catalogued notebook once.
- The global `notebooks` reaches the loop as a `catalog` parameter, which `RunScript` fills with the catalog; nothing else is passed that way.
- Executing a notebook is assumed deterministic across turns: `run` is a function of the name alone, so a name given twice on the command line gives the same result both times. A real re-run executes the notebook again into a fresh temporary file and can differ (a cell time-out, state left by the first run).
- Exceptions other than the four named (for example an interrupt, or a malformed notebook file raising inside `nbformat`) are not modelled.
