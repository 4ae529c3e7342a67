# SuperCarteira fund ranking: a verified model of the tabular pipeline

The SuperCarteira tool reads the fund catalogues of several asset categories. It
requests each fund's performance statistics from a web API, scores each fund by
return over volatility on four look-back horizons, and ranks the funds. It then
plots profitability against volatility for the funds inside user-chosen bounds.

This Dafny project models the deterministic part between the HTTP calls and the
charts, and proves what that part promises:

- **`identifiers.dfy`** (`Identifiers`): CNPJ normalisation, which strips `/`,
  `.` and `-`. Also `string_to_int`, with Python's `int` on a digit string.
- **`catalog.dfy`** (`Catalog`): `get_cnpj`, which appends a category's
  normalised and tagged identifiers to the table. Also the category loop, as a
  method over the growing table.
- **`records.dfy`** (`Records`): the fields one successful request yields, and
  the four horizons.
- **`scores.dfy`** (`Scores`):
  - the horizon scores;
  - `calculate_mean` and `calculate_std`, including the three-missing exception;
  - `score_all = score_mean / score_std` with numpy's division by zero.
- **`ranking.dfy`** (`Ranking`): `sort_values(by = "score_all", ascending = False)`.
- **`fetch.dfy`** (`Fetch`): the scrape loop, as a method that appends to ten
  parallel lists and to `list_not_found` and counts iterations. Also the
  `cnpj == @list_not_found` / `cnpj != @list_not_found` split.
- **`pipeline.dfy`** (`Pipeline`): the whole `webscrapping` run, from the table
  to the ranked result. It comes in two versions:
  - the run as the code performs it (`RunAsWritten`, and the method
    `Webscrapping`);
  - the run as evidently intended (`Run`).
- **`chart.dfy`** (`Chart`): `clean_to_chart`, with four strict range queries
  on rounded values, and the choice of the default bounds.

The same pipeline appears twice in the code, in FerramentaInvestimento.py and
in SuperCateira_Webscrapping.py, and the model has one copy of each piece:

| piece | FerramentaInvestimento.py | SuperCateira_Webscrapping.py |
|---|---|---|
| `get_cnpj` | 91-131 | 121-161 |
| `calculate_mean` | 135-155 | 164-184 |
| `calculate_std` | 159-185 | 187-213 |
| `string_to_int` | 189-201 | 216-228 |
| category loop | 240-241 | 317-318 |
| scrape loop | 244-313 | 343-409 |
| not-found split | 316-322 | 412-418 |
| score chain and sort | 325-349 | 420-446 |

`clean_to_chart` with four bounds is in FerramentaInvestimento.py:363-399 and
Streamlit.py:74-110. The default bounds are in FerramentaInvestimento.py:547-562
and Streamlit.py:240-255.

How values are represented:

- **Missing numbers.** A missing number (JSON null, pandas NaN) is `None` in an
  `Option<real>`.
- **`score_all`.** It can be infinite, so it is an `Extended` value: NaN, -inf,
  a real, or +inf.
- **The network.** It becomes a parameter. `outcomes[k]` is what the request for
  the k-th identifier yields: either the extracted record, or an exception
  anywhere in the `try` block.
- **Square root and rounding.** `np.sqrt` is the parameter `sqrt`. The model
  uses only the property `IsSquareRoot`: non-negative, and squaring gives the
  argument back. `round(2)` is the parameter `round2`, and the model assumes
  nothing about it.

Two facts about the numeric code that the model follows:

- `np.std` uses its default ddof = 0, so `score_std` is the population
  deviation.
- pandas division gives +inf or -inf for a nonzero mean over a zero deviation,
  and NaN only for 0/0. `Scores.EqualScoresGiveInfiniteScoreAll` shows this
  happens in exact arithmetic: two or more equal scores give a zero deviation.
  In float64 this holds for two equal scores; three or more can leave a
  round-off deviation and a large finite `score_all`.

## Model

| member | source | states |
|---|---|---|
| Identifiers.StripChar | FerramentaInvestimento.py:117-119 | one `str.replace(c, "")` leaves no `c` and introduces no character that was not in the input |
| Identifiers.NormalizeKeepsOthersInOrder | FerramentaInvestimento.py:115-120 | the three chained replacements equal one pass that drops exactly `/`, `.` and `-` and keeps every other character in its original order; the copy at SuperCateira_Webscrapping.py:145-150 behaves the same |
| Identifiers.Normalize | FerramentaInvestimento.py:115-120 | a normalised CNPJ contains no `/`, `.` or `-`, and only characters of the raw one |
| Identifiers.NormalizeIdempotent | SuperCateira_Webscrapping.py:145-150 | normalising twice is normalising once, and an identifier without separators is left unchanged |
| Identifiers.ParseInt | FerramentaInvestimento.py:201 | `int(item)` succeeds exactly on an optional sign followed by decimal digits, and a digit string yields its decimal value |
| Identifiers.StringToInt | FerramentaInvestimento.py:201 | succeeds exactly when every item parses; the result has the same length and its i-th element is the value of the i-th item; the copy at SuperCateira_Webscrapping.py:228 behaves the same |
| Identifiers.DecimalRoundTrip | SuperCateira_Webscrapping.py:228 | `int(str(n)) == n` for every natural number |
| Identifiers.LeadingZeroLost | SuperCateira_Webscrapping.py:228 | a leading zero does not change the value read, so the conversion loses leading zeros |
| Identifiers.StringToIntExample | SuperCateira_Webscrapping.py:228 | `["007", "12"]` converts to `[7, 12]` |
| Records.ParseHorizon | Streamlit.py:95-96 | exactly the four SCORE_OPTIONS name the `profitability_*` / `volatility_*` columns |
| Catalog.Tagged | FerramentaInvestimento.py:115-126 | `df_temp` has one row per catalogue entry, in order; each carries the category and the entry with exactly its separators removed |
| Catalog.GetCnpj | FerramentaInvestimento.py:115-129 | earlier rows stay first and unchanged; the row count grows by the catalogue length; each new row is the normalised identifier, in order, tagged with the category; nothing is deduplicated; the copy at SuperCateira_Webscrapping.py:145-159 behaves the same |
| Catalog.LoadedTableShape | SuperCateira_Webscrapping.py:317-318 | after the category loop the table has one row per catalogue entry, every identifier is free of separators, and every category is a configured one |
| Catalog.LoadCatalogs | SuperCateira_Webscrapping.py:317-318 | the loop builds exactly the table of successive `get_cnpj` calls, of total catalogue length; the copy at FerramentaInvestimento.py:240-241 behaves the same |
| Scores.Ratio | FerramentaInvestimento.py:339-342 | a horizon score is present exactly when both operands are, and then times the volatility it gives the profitability |
| Scores.ScoresOf | SuperCateira_Webscrapping.py:435-438 | each `score_h` is `profitability_h / volatility_h` |
| Scores.NullCount | FerramentaInvestimento.py:176 | the null count is 0 exactly when every score is present, and equals the number of scores exactly when every score is null |
| Scores.Present | FerramentaInvestimento.py:152 | the non-null scores number four minus the null count |
| Scores.PresentMembers | FerramentaInvestimento.py:152 | a value is kept exactly when it is one of the scores |
| Scores.Mean | FerramentaInvestimento.py:155 | `np.mean` is NaN exactly on an empty list, and otherwise times the count it gives the sum |
| Scores.CalculateMean | FerramentaInvestimento.py:149-155 | the mean is missing exactly when all four scores are |
| Scores.CalculateMeanIsAverage | FerramentaInvestimento.py:149-155 | the mean is the sum of the non-null scores divided by their count, which is four minus the null count |
| Scores.MeanOfFour | FerramentaInvestimento.py:149-155 | with all four scores present the mean is their sum divided by 4 |
| Scores.MeanWithinBounds | SuperCateira_Webscrapping.py:178-184 | the mean lies within any bounds that contain every present score |
| Scores.TwoValuesVariance | FerramentaInvestimento.py:185 | 2.0 and 4.0 have sum 6.0 and population variance 1.0 |
| Scores.PopulationVariance | FerramentaInvestimento.py:185 | the square of `np.std` (ddof = 0) is never negative |
| Scores.CalculateStd | FerramentaInvestimento.py:173-185 | exactly three nulls give `score_begin` itself (null when it is one of them); four nulls give null; otherwise a non-negative value whose square is the population variance of the present scores; the copy at SuperCateira_Webscrapping.py:204-213 behaves the same |
| Scores.VarianceZeroIffAllEqual | FerramentaInvestimento.py:185 | the population variance is zero exactly when all values are equal |
| Scores.StdZeroIffAllEqual | FerramentaInvestimento.py:184-185 | with at most two nulls the deviation is 0 exactly when all present scores are equal |
| Scores.TwoScoresExample | FerramentaInvestimento.py:173-185 | scores `[2.0, 4.0, null, null]` give mean 3.0 and deviation 1.0 |
| Scores.Divide | FerramentaInvestimento.py:347 | `score_mean / score_std`: a real quotient for a nonzero divisor, +inf or -inf with the sign of a nonzero dividend over zero, NaN for 0/0 or a missing operand |
| Scores.ScoreRow | FerramentaInvestimento.py:339-347 | one row of the score chain: horizon scores, mean, deviation and `score_all` as above |
| Scores.EqualScoresGiveInfiniteScoreAll | FerramentaInvestimento.py:345-347 | in exact arithmetic, two or more equal present scores give a zero deviation and an infinite (not missing) `score_all` for a nonzero mean |
| Ranking.Insert | FerramentaInvestimento.py:348 | inserting into a descending sequence keeps it descending, adds exactly that row, and places it after every row of the same `score_all` (NaN included) |
| Ranking.SortByScoreAll | FerramentaInvestimento.py:348 | the result is a permutation of the rows ordered by `score_all`, highest first, NaN last, and for every value (NaN included) the rows with that value keep their input order; the copy at SuperCateira_Webscrapping.py:444 behaves the same |
| Ranking.NaNRowsKeepOrder | FerramentaInvestimento.py:348 | two NaN rows come out in their input order, as pandas appends NaN positions in index order |
| Ranking.NaNRowsLast | FerramentaInvestimento.py:348 | in the ranking every row with a value comes before every NaN row |
| Ranking.FirstIsHighest | SuperCateira_Webscrapping.py:444 | the first ranked row has the highest `score_all` of all rows |
| Fetch.Columns | FerramentaInvestimento.py:294-303 | the ten lists built from records are parallel and position i holds record i |
| Fetch.ColumnsThenRecords | FerramentaInvestimento.py:294-303 | splitting records into the ten lists and reading them back gives the records |
| Fetch.RecordsThenColumns | FerramentaInvestimento.py:294-303 | reading parallel lists as records and splitting them again gives the lists |
| Fetch.EveryIdentifierOnce | FerramentaInvestimento.py:244-313 | each identifier contributes exactly one record or one not-found entry |
| Fetch.NotFoundMembers | FerramentaInvestimento.py:306-309 | an identifier is in `list_not_found` exactly when one of its requests failed |
| Fetch.Scrape | FerramentaInvestimento.py:244-313 | the loop leaves `count` at the number of identifiers, the ten lists parallel and holding the fetched records in order, and `list_not_found` holding the failed identifiers in order; the copy at SuperCateira_Webscrapping.py:343-409 behaves the same |
| Fetch.Query | FerramentaInvestimento.py:319-322 | each query keeps only table rows whose membership in the not-found values is as asked |
| Fetch.Listed | FerramentaInvestimento.py:319-322 | a row is listed exactly when its identifier, read as a number, equals one of the not-found values |
| Fetch.SplitPartitions | FerramentaInvestimento.py:319-322 | the `==` and `!=` frames are disjoint and together hold every row of the table exactly as often; the copy at SuperCateira_Webscrapping.py:415-418 behaves the same |
| Pipeline.ScoreAll | FerramentaInvestimento.py:325-347 | the field lists are assigned by position: the i-th scored row carries the i-th category and the i-th fetched record |
| Pipeline.Assign | FerramentaInvestimento.py:325-348 | `assign` raises exactly when the frame has rows and their number differs from the number of records; on an empty frame every record is scored with a missing category; otherwise each record gets its row's category; the result is ranked by `score_all` |
| Pipeline.RunAsWritten | FerramentaInvestimento.py:316-348 | the run as coded, with identifiers compared by value: when it succeeds, the result has one row per fetched record |
| Pipeline.RunAsTyped | FerramentaInvestimento.py:316-348 | the run as coded, with the `str` column compared against the `int` list: when it succeeds, nothing was removed from the table and the result has one row per fetched record |
| Pipeline.Run | FerramentaInvestimento.py:316-348 | the run with the remaining rows taken as the rows whose request succeeded: it never fails on lengths |
| Pipeline.QueryAgainstOutcomes | FerramentaInvestimento.py:319-328 | with every failed row listed, the `!=` query keeps exactly the fetched rows unless a fetched row is listed too, in which case it keeps fewer |
| Pipeline.ListingFacts | FerramentaInvestimento.py:316-322 | after conversion every failed row is listed, and a fetched row is listed exactly when its identifier has the value of a failed one |
| Pipeline.RemainingEmptyIff | FerramentaInvestimento.py:316-322 | the `!=` frame is empty exactly when every fetched identifier has the value of a failed one |
| Pipeline.LengthMismatchIff | FerramentaInvestimento.py:316-328 | the run as coded (by value) fails on the `assign` lengths exactly when some fetched identifier has the value of a failed one and some other fetched row stays in the `!=` frame; without any such collision it equals the intended run |
| Pipeline.WithoutCollisionAsIntended | FerramentaInvestimento.py:316-348 | when no fetched identifier has the value of a failed one, the run as coded (by value) equals the intended run |
| Pipeline.EmptyFrameLosesCategories | FerramentaInvestimento.py:322-348 | when every fetched identifier has the value of a failed one, the run as coded (by value) succeeds with an empty `!=` frame and reports every fetched record with a missing category |
| Pipeline.TypedRunFailsOnAnyNotFound | FerramentaInvestimento.py:316-328 | with the `str` column compared against the `int` list, any failed request makes the run raise on the `assign` lengths |
| Pipeline.TypedRunWithoutFailures | FerramentaInvestimento.py:316-348 | with no failed request, the run with the `str` column compared against the `int` list equals the intended run |
| Pipeline.DuplicateIdentifierCounterexample | SuperCateira_Webscrapping.py:412-424 | a CNPJ listed in two categories, failing once and succeeding once, next to a second fetched CNPJ, makes the run as coded (by value) raise while the intended run succeeds with the two fetched rows |
| Pipeline.DuplicateIdentifierLosesCategory | FerramentaInvestimento.py:316-348 | a CNPJ listed in two categories, failing once and succeeding once, and nothing else: the run as coded (by value) reports the record with a missing category, where the intended run reports it under `Multimercado` |
| Pipeline.RowsWherePartition | SuperCateira_Webscrapping.py:415-418 | the failed rows and the fetched rows partition the table |
| Pipeline.FetchedRowsAligned | SuperCateira_Webscrapping.py:418-424 | the k-th fetched row and the k-th fetched record come from the same request |
| Pipeline.RunPartitions | SuperCateira_Webscrapping.py:412-418 | the intended run's not-found and remaining frames partition the table |
| Pipeline.RunAligned | SuperCateira_Webscrapping.py:418-424 | each remaining row of the intended run is paired with the record its own request fetched |
| Pipeline.RunRanked | SuperCateira_Webscrapping.py:420-444 | the intended run's result is a permutation of the scored remaining rows, ranked by `score_all`, highest first |
| Pipeline.Webscrapping | FerramentaInvestimento.py:240-348 | the method (category loop, scrape loop, conversion, split, score chain, sort) returns exactly the run as coded (by value, with ties in `score_all` kept in input order), which equals the intended run whenever no fetched identifier has the value of a failed one; the copy at SuperCateira_Webscrapping.py:317-444 behaves the same |
| Chart.RoundOption | Streamlit.py:102-103 | rounding keeps NaN as NaN and rounds every present value |
| Chart.Rounded | Streamlit.py:102-103 | each row is kept, in order, with its selected horizon's profitability and volatility rounded, NaN staying NaN |
| Chart.Filter | Streamlit.py:104-107 | a query keeps exactly the rows that satisfy its condition |
| Chart.CleanToChart | Streamlit.py:92-110 | an unknown SCORE_TYPE fails with the missing column; otherwise every kept row comes from the input and has rounded profitability and volatility strictly inside the four bounds; the copy at FerramentaInvestimento.py:381-397 behaves the same |
| Chart.CleanToChartIsOneFilter | Streamlit.py:104-107 | the four successive queries equal one query with all four strict bounds over the rounded rows |
| Chart.CleanToChartComplete | Streamlit.py:99-108 | every input row whose rounded values meet all four bounds is kept |
| Chart.CleanToChartColumns | Streamlit.py:95-103 | the added `profitability` and `volatility` columns are the rounded values of the selected horizon's columns |
| Chart.FilterIsSubsequence | Streamlit.py:104-107 | a query keeps a subsequence of its input, in order |
| Chart.CleanToChartKeepsOrder | Streamlit.py:99-108 | the chart rows are an order-preserving subsequence of the rounded input |
| Chart.ColumnMin | Streamlit.py:252-254 | `Series.min()` is NaN exactly when the column has no value, and otherwise is one of its values and at most every value |
| Chart.ColumnMax | Streamlit.py:253-255 | `Series.max()` is NaN exactly when the column has no value, and otherwise is one of its values and at least every value |
| Chart.DefaultBounds | Streamlit.py:240-255 | with suggestions the bounds are 0 to 999999 and 0 to 100; otherwise each is its column's min or max; the copy at FerramentaInvestimento.py:547-562 behaves the same |
| Chart.DefaultsEncloseColumns | Streamlit.py:250-255 | without suggestions the default bounds enclose every present value of the selected columns |

## Findings

| source | as written | input that shows it | evidently intended | confidence | as-written member | corrected member |
|---|---|---|---|---|---|---|
| FerramentaInvestimento.py:316-328 | the table is split by identifier value (`cnpj == / != @list_not_found`) and then the field lists are assigned to the remaining rows by position | table `[("1", "Acoes"), ("1", "Multimercado"), ("2", "Acoes")]`; the first request fails, the others succeed: the `!=` frame keeps only the third row but the lists hold two records, so `assign` raises | the remaining rows are the rows whose own request succeeded | not executed | Pipeline.DuplicateIdentifierCounterexample | Pipeline.Run |
| FerramentaInvestimento.py:316-348 | as above; `assign` onto a frame without rows takes the list's index instead of raising | table `[("1", "Acoes"), ("1", "Multimercado")]`; the first request fails, the second succeeds: the `!=` frame is empty and the record comes out with a missing `categoria` | the record keeps the category of its own row | not executed | Pipeline.DuplicateIdentifierLosesCategory | Pipeline.Run |
| FerramentaInvestimento.py:316-328 | `list_not_found` is converted to integers while the `cnpj` column holds strings, so `cnpj == @list_not_found` matches no row | table `[("1", "Acoes"), ("2", "Acoes")]`; the first request fails: the `!=` frame keeps both rows but the lists hold one record, so `assign` raises | the failed rows are removed before the lists are assigned | not executed | Pipeline.TypedRunFailsOnAnyNotFound | Pipeline.Run |

The first two rows read `cnpj == @list_not_found` as a comparison of values,
both sides taken as numbers, as `Pipeline.RunAsWritten` does. Under that
reading `Pipeline.LengthMismatchIff` states exactly when the run raises: some
fetched identifier and some failed one read as the same number (a CNPJ listed
in two categories, or two spellings that differ only in leading zeros) while
another fetched row stays in the `!=` frame. When every fetched row collides,
`Pipeline.EmptyFrameLosesCategories` shows that the run does not raise but
reports every record without its category. The third row is the reading pandas
gives the code as typed: a string never equals an integer, so the split removes
nothing, and `Pipeline.TypedRunFailsOnAnyNotFound` shows that any failed
request makes the run raise. The same code is at
SuperCateira_Webscrapping.py:412-424.

## Left out

- HTTP requests, `time.sleep`, progress bars, `print` and `tab.write` output are I/O. The scrape loop receives each request's outcome as a parameter.
- JSON decoding (`pd.read_json`, `json_normalize`) and the extraction of the `timeframe` statistics are foreign library calls. A successful extraction is an `Outcome.Fetched` record, and any exception inside the `try` is `Outcome.NotFound`.
- Reading the catalogue files is file I/O. `Catalog.LoadCatalogs` receives each category's raw identifiers.
- Scores.Ratio: requires a nonzero volatility. With a zero volatility pandas gives an infinite score (NaN for 0/0), which `pd.notnull` counts as present, and the model's real-valued scores cannot hold it.
- Pipeline.Webscrapping: requires every fetched record to have nonzero volatilities, for the same reason. `Pipeline.RunAsWritten`, `Pipeline.RunAsTyped` and `Pipeline.Run` have the same requirement.
- Scores.CalculateStd: `np.sqrt` is a parameter. Only `IsSquareRoot` is assumed of it, so floating-point rounding of the root is not modelled.
- Chart.CleanToChart: `round(2)` is an arbitrary parameter `round2`. Half-even rounding and binary floating point are not modelled.
- Arithmetic is exact over the reals. Floating-point round-off in the mean and the deviation, and signed zero, are not modelled.
- Identifiers.ParseInt: accepts only an optional sign followed by ASCII digits. `int()` also accepts surrounding whitespace, underscores between digits and other Unicode digits; the model treats those strings as invalid.
- Fetch.Query: compares each row's identifier, read as a number, with the converted `list_not_found`. In pandas the `cnpj` column holds strings and the list holds integers, and `cnpj == @list_not_found` is a membership test in which a string never equals an integer. So the `==` frame is empty, the `!=` frame keeps every row, and `assign` raises whenever at least one request failed. `Pipeline.RunAsTyped` models that reading, and `Pipeline.TypedRunFailsOnAnyNotFound` states the consequence.
- Ranking.SortByScoreAll: pandas places the NaN rows last in index order, which the model matches. Among equal non-NaN `score_all` values the order pandas gives is that of numpy's default quicksort, which is not stable, so it is unspecified. The model keeps input order there, which is one admissible order.
- Index handling (`reset_index`, `drop(columns = "cnpj")`) is not modelled: rows are positions in a sequence, and the identifier stays in `AssetRow`.
- The in-place conversion of `categoria` to a categorical type (Streamlit.py:92) changes no value and is not modelled.
- The sidebar widgets (`number_input`, `slider`) that let the user edit the default bounds are UI. `Chart.CleanToChart` receives the chosen bounds.
- Chart.DefaultBounds: when a column has no values, the default is NaN (`None`). What the widgets do with a NaN default is not modelled.
- The `SWITCH_*` branches that reload earlier results from disk, Excel/CSV export, Plotly charts and the two-bound chart filter of the batch script (SuperCateira_Webscrapping.py:232-262) are outside the pipeline.
- An availability join against a second provider's listing is not modelled.
