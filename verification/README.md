# COVID-19 dashboard decision rules, in Dafny

This project models the pure decision rules at the core of a small COVID-19 /
economic-data dashboard (a Dash web app over NYT case data and FRED series):

- **Trace order and visibility** (`app.py`). `update_county_plot` draws the ten
  counties with the most cases in rank order. It then draws ranked counties
  10–199, sorted by the text of the pair `(county, state)`, and drops the rest.
  `update_state_plot` does the same for states, sorted by name and with no
  cut-off. The loop over the reordered list skips entities whose rolling
  window raises `NotEnoughCases`, but a skipped entity still uses up its
  position. Only traces at positions below ten are drawn; the rest are shown in
  the legend only. `plot_county` and `plot_state` choose the x/y arrays and the
  label.
- **Cache freshness** (`unemployment.py`). `_get_df` downloads a FRED series
  only when its local file is missing or older than the expiry age (one day).
  An age exactly equal to the expiry counts as fresh. A download overwrites
  that one file, and the answer is always read back from the file.
  `get_unemployment` reads four series in a fixed order and multiplies the
  employment level by 1000.
- **Cause-of-death order** (`death.py`). `get_causes` lists the causes from the
  largest count down. "All Other Causes" has the largest count, but its sort key
  is 0, which pins it to the end.

Modules: `Wrappers` (Option/Result), `PySlice` (Python list slicing),
`Sorting` (`sorted(xs, key=...)` for any totally ordered key), `TextOrder`
(Python string order), `PyText` (Python `repr` of a string and `str` of a
pair), `Plots`, `Figures`, `Unemployment`, `Death`.

External collaborators are parameters:

- `compute_new_cases` is a function argument returning `None` for
  `NotEnoughCases`.
- The ranked lists from `counties_by_num_cases` / `states_by_num_cases` are
  inputs.
- The network is a function from URL to an optional payload.
- The clock reading is a `real` argument.
- The file system is a map from file name to (content, modification time).

A failed download propagates out of `get_unemployment` as it is; nothing
retries it.

## Model

| member | source | states |
|---|---|---|
| Plots.PlotCounty | app.py:21-33 | fails with a missing-region error exactly when the county is not in the data, and with `NotEnoughCases` exactly when the rolling window reports it; on success the label is `county + ", " + state`, and x/y are the trimmed dates and growth rate in percent mode, otherwise the trimmed cumulative cases and the new cases |
| Plots.PlotState | app.py:35-46 | as for counties, with the state's name as the label |
| Plots.PlotIgnoresStyle | app.py:21-46 | the `min_cases` and `lineweight` arguments never change the plotted line or its label |
| Plots.Kept | app.py:58-62 | the positions kept by the loop are strictly increasing, each has a successful plot, and every position with a successful plot is among them |
| Plots.TracesFrom | app.py:58-66 | the loop fails exactly when some remaining entity is missing from the data; otherwise it yields one trace per kept position, in order, and each trace carries its plot's x, y and label and is visible iff that position is below ten |
| Plots.Traces | app.py:58-66 | the whole loop: same statement, from position 0 |
| Plots.VisibleIffTopPosition | app.py:58-65 | a trace is drawn iff it comes from one of the first ten positions, so drawn traces come before legend-only ones, and a skipped entity among the first ten still takes up one of the ten places |
| Plots.SkippedEntityKeepsPosition | app.py:58-65 | with eleven entities of which the first is skipped, ten traces result, and the tenth trace is legend-only because positions count the skipped entity |
| Plots.TraceAt | app.py:63-66 | a trace at position i is visible iff i < 10, else legend-only |
| Sorting.SortBy | app.py:54 | under a total order on keys, the sort returns a permutation of its input, ascending by key |
| Sorting.SortedPermutationUnique | app.py:54 | when no two different elements share a key, two sorted permutations of the same elements are equal, so the sorted order is fully determined |
| TextOrder.LexLeTotal | app.py:54 | any two strings are comparable |
| TextOrder.LexLeTransitive | app.py:54 | the string order is transitive |
| TextOrder.LexLeAntisymmetric | app.py:54 | two strings each at most the other are equal |
| TextOrder.LexLeTotalOrder | app.py:54 | Python's string order is a total order, so `sorted` over string keys is well defined |
| PyText.Repr | app.py:54 | the key's quoted names start and end with the quote Python picks: double quotes only for text with an apostrophe and no double quote |
| PyText.PairStr | app.py:54 | the county key is the parenthesised text of the pair |
| PyText.PlainPairStr | app.py:54 | for names without quotes, backslashes or control characters, the key is exactly `('county', 'state')` |
| PyText.ApostropheRepr | app.py:54 | a name with an apostrophe and no double quote is written in double quotes, unescaped |
| PyText.DecodeEscapeChar | app.py:54 | reading one escaped character back from the front of a text gives the character and the width of its escape |
| PyText.ReprInjective | app.py:54 | different strings have different `repr` texts |
| PyText.PairStrInjective | app.py:54 | different pairs have different `str` texts |
| Figures.CountyKey | app.py:54 | the county's sort key is the text of the pair (county, state); for names without quotes, backslashes or control characters it is exactly `('county', 'state')` |
| Figures.CountyKeyInjective | app.py:54 | different counties never share a sort key |
| Figures.CountyOrder | app.py:49-56 | the order has min(200, n) entries; the first ten are the first ten ranked in rank order; the rest are sorted by the pair key and are a permutation of ranked entries 10–199; the whole is a permutation of the first 200 ranked |
| Figures.StateOrder | app.py:83-89 | same length as the ranking; the first ten keep rank order; the rest are all the other states in ascending name order; a permutation of the input |
| Figures.CountyOrderUnique | app.py:53-56 | any arrangement that keeps the top ten and sorts entries 10–199 by key equals the county order; no premise is needed, since no two counties share a key |
| Figures.StateOrderUnique | app.py:86-89 | any arrangement that keeps the top ten and sorts the remaining states equals the state order |
| Figures.CountyOrderDistinct | app.py:52-56 | without duplicates among the first 200 ranked counties, the order has no duplicates |
| Figures.CountyPlotter | app.py:60 | the county loop plots each county with a five-day window; its `min_cases=300` and `lineweight=2` arguments could be any values without changing the plot |
| Figures.StatePlotter | app.py:93 | the state loop plots each state with a five-day window and the default `min_cases` and `lineweight`, which change nothing |
| Figures.UpdateCountyPlot | app.py:49-66 | the traces are exactly the loop over the county order with the county plotter: same count, order, x/y and labels; the figure fails exactly when one of the first 200 ranked counties is missing from the data; otherwise every such county with enough history has a trace under its label, every trace is labelled after one of those counties, and a trace is drawn iff it is among those from the first ten ranked counties |
| Figures.UpdateStatePlot | app.py:83-99 | the traces are exactly the loop over the state order with the state plotter; the same failure, label and visibility statements, over all ranked states, each trace named after its state |
| Figures.LabelledTraces | app.py:58-66 | for a plot function that fails exactly on entities outside the data and labels each entity by a fixed rule, the loop's facts restated in terms of the data and the label rule |
| Figures.OrderedTraces | app.py:58-66 | for any order holding the same entities as a pool: failure iff a pool entity is missing; every pool entity with a successful plot has a trace, and every trace comes from such an entity; drawn iff from the first ten positions |
| Unemployment.GetDf | unemployment.py:17-35 | downloads iff the file is absent or `now - mtime > expiry_age`; without a download the cache is unchanged and the answer is the file's content; after a successful download only that file changes, to the payload stamped `now`; a failed download changes nothing; any answer equals the file's content afterwards; no other file changes |
| Unemployment.GetDfDaily | unemployment.py:17-18 | with the default expiry, a download happens iff the file is absent or more than 86400 seconds old |
| Unemployment.BoundaryIsFresh | unemployment.py:19-26 | a file exactly `expiry_age` old, or with a future modification time, is fresh: no download and no change |
| Unemployment.RefetchWithinExpiryIsCached | unemployment.py:17-35 | after a download, a second call within the expiry age does not download, changes nothing and returns the same answer, whatever the network now says |
| Unemployment.ScaleValues | unemployment.py:42 | scaling keeps length, order and dates and multiplies each value by the factor |
| Unemployment.ScaleInverse | unemployment.py:42 | scaling by a non-zero factor and then by its inverse restores the series |
| Unemployment.ExpectedIsGetDf | unemployment.py:17-35 | the daily freshness rule stated on its own (a fresh file stays; a stale or absent one becomes the download stamped with the clock reading, or stays when the download raises) is what one `_get_df` call does to the series' file |
| Unemployment.ReadAll | unemployment.py:37-44 | a chain of `_get_df` calls fails iff some series' file is stale or absent and its download raises; the error names the first such URL in call order, the files before it follow the daily rule and it and those after it are unchanged; on success every file follows the daily rule and each frame is its file's content; files outside the chain never change |
| Unemployment.GetUnemployment | unemployment.py:37-44 | fails iff some one of the four series' files is stale or absent and its download raises; the error names the first such URL in call order, files before it follow the daily rule and it and the later ones are unchanged; on success each of the four files follows the daily rule and the series are, in order, the contents of `new_claims.csv`, `continuing_claims.csv`, `employment_level.csv` scaled by 1000, and `unemployment.csv`; no file outside the four changes |
| Unemployment.AllFreshReadsCache | unemployment.py:37-44 | with all four files fresh, the cache is unchanged and the answer is the cached content with only the employment level scaled |
| Death.Count | death.py:2-14 | a lookup succeeds iff the name is in the table, and returns that row's count |
| Death.SortKey | death.py:16-20 | `s` maps "All Other Causes" to 0 and any other name to its table lookup |
| Death.RowKeyIsSortKey | death.py:16-20 | for every table row, `s` of its name is the row's key, so computing keys per row matches `s` |
| Death.AllOtherCausesKeyIsLeast | death.py:13-18 | "All Other Causes" has a smaller key than every other cause although its count, 731972, is larger |
| Death.NatLeTotalOrder | death.py:23 | the order on keys is a total order, so `sorted(..., key=s)` is well defined |
| Death.SortFindsSorted | death.py:23 | sorting any permutation of a sequence with strictly ascending keys gives that sequence |
| Death.SortCauses | death.py:23 | `sorted(table, key=s)[::-1]` returns a permutation of the table whose keys do not increase |
| Death.Reverse | death.py:23 | `[::-1]` keeps length and elements and reads positions backwards |
| Death.SortCausesKeepsDescendingTable | death.py:22-23 | a table whose keys strictly descend comes out of `sorted(..., key=s)[::-1]` in its own order |
| Death.TableLayout | death.py:2-14 | the table has 11 rows; the first ten counts strictly descend from "Heart Disease" to "Suicide"; "All Other Causes" with 731972 is last and has the largest count |
| Death.SortKeepsTable | death.py:22-23 | the table as written comes out of `sorted(..., key=s)[::-1]` unchanged |
| Death.GetCauses | death.py:22-23 | the result is the table as written, and so has its layout: every row exactly once with its true count, including 731972 for "All Other Causes", which is last; the other ten in strictly descending count order, "Heart Disease" first and "Suicide" tenth |

## Left out

- Dash layout, callbacks, figure titles, axis titles, log axes, the
  `lines+markers` mode, stylesheets and `app.run_server`: presentation only.
- `git clone`/`pull`, `pd.read_csv` of the NYT files, and the global
  `cases_by_county`/`cases_by_state`: I/O and process state.
- The `covid_19` module (`compute_new_cases`, `counties_by_num_cases`,
  `states_by_num_cases`, `df_to_dict_*`) is not part of this model. Its results
  are parameters, and no rolling-window arithmetic is invented for it.
- Plots.PlotCounty: the percent-mode y value `new_cases/cases*100` is numpy
  floating-point arithmetic; the model records its two operands instead of
  computing it.
- Plots.PlotState: the same percent-mode simplification.
- Figures.UpdateCountyPlot: `percent` is modelled as a boolean. The callback
  passes the checkbox's list of values, and Python tests it for truthiness (a
  non-empty list is true).
- Figures.UpdateStatePlot: the same boolean simplification of `percent`.
- Sorting.SortBy: stability is not stated as a contract. For states the key
  is the element itself, and no two counties share a key
  (`CountyKeyInjective`), so stability is unobservable in both figures;
  `CountyOrderUnique` and `StateOrderUnique` show each order is fully
  determined. In the cause table no two rows share a key either.
- PyText.Repr: characters outside Latin-1 are treated as printable. Python also
  escapes non-printable characters beyond U+00FF as `\u`/`\U` escapes.
- Unemployment.GetUnemployment: one clock reading serves all four `_get_df`
  calls. The source reads `time.time()` afresh in each call. The employment
  level is scaled after the fourth call rather than between the third and
  the fourth; scaling touches no file, so the order is unobservable.
- Unemployment.GetDf: the written file's modification time is taken to be the
  clock reading of the call. Floating-point rounding of `now - mtime`, UTF-8
  decoding and CSV parsing are not modelled: the cache holds parsed frames.
- `update_lock` is left out because it is concurrency. If the download raises,
  the source never releases the lock, so a later download in the same process
  would block forever.
