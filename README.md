# FeedbackPulse analysis pipeline — a verified Dafny model

This project models the two pieces of logic in the FeedbackPulse review-analysis
pipeline: how the review sample is prepared (`load_and_preprocess_data` in
`data_utils.py`) and how the batch run collects analyser responses and
reconciles them with the sample (`run_analysis_pipeline` in `main.py`).

- `wrappers.dfy` (module `Wrappers`): `Option`. It stands for a missing cell, a
  missing data file and an analyser that returns `None`.
- `data_utils.dfy` (module `DataUtils`): sample preparation, written as pure
  functions and lemmas like the chain of DataFrame expressions it models.
  - `Split` is Python's `str.split()` with no separator. It uses Python's full
    whitespace set, so empty or blank text has 0 words.
  - `Clean` is `dropna` plus the `text_length` column.
  - `KeepLong` keeps rows with `text_length >= 10`.
  - `SamplePositions` picks the rows. Below `SAMPLE_SIZE` survivors it keeps all
    of them in order. Otherwise `Draw` selects without replacement. Each step
    reads the next output of the generator seeded with `RANDOM_STATE` (42).
  - `LoadAndPreprocess` re-labels the picked rows 0..k-1.
  - The generator is a parameter `Rng = (seed, step) -> nat`. Pandas' own random
    algorithm is not modelled.
- `pipeline.dfy` (module `Pipeline`): the run.
  - `AnalyseSample` is the batch loop, written as a method with loop invariants.
    It is proved against the specification function `Collected`, which is
    `results_list` after the loop.
  - The reconciliation is pure. `LeftJoin` models `pd.merge(..., how='left')`
    followed by the drop of `original_index` and `fillna` over a given column
    set: each sample row appears once per matching result, or once with no
    result cells, and each row's cells go through `FillNa`, which models
    `fillna` with the three sentinels. `Reconcile` applies `LeftJoin` with the
    columns of the results frame (`Columns`).
  - `RunAnalysisPipeline` ties these together with the two aborts and the stop
    on a missing sentinel column.
  - The analyser is a parameter `Analyser = (index, text) -> Option<map<string,string>>`.
    Because it takes the index, each call can fail or succeed independently, as
    a remote service may.

Passthrough source columns are a type parameter `R`. They are carried through
unchanged and never inspected.

Behaviours one might expect that the code does not have:
- A missing `Review Text` column raises `KeyError` in the code (data_utils.py:25).
  It does not yield an empty sample. The model's rows always have the text cell.
- The code never checks `sentiment` or `topic` against their vocabularies. It
  only sends a schema to the service. Any string the analyser returns is kept.
- `fillna` with a dict skips any key that is not a column of the frame. If no
  collected result has, say, a `topic` key, the merged frame has no `topic`
  column. The column selection for the preview print at main.py:74 then raises
  `KeyError`, before the write at main.py:77, so nothing is written or
  returned. The model reports this as the outcome `MissingColumn`. `FillNa`
  takes the frame's column set (`Columns`) to capture the skip.
  `SchemaFieldsMakeColumns` shows that one result carrying all three fields, as
  the response schema requires, is enough for all three columns to exist. In a
  written table, every unmatched row has all three sentinels.

## Model

| member | source | states |
|---|---|---|
| `DataUtils.Split` | data_utils.py:28 | every word is non-empty and contains no whitespace |
| `DataUtils.SplitKeepsEveryNonSpace` | data_utils.py:28 | concatenating the words gives exactly the non-whitespace characters of the text, in order |
| `DataUtils.WordCount` | data_utils.py:28 | the count equals the number of places where a word begins, and it is 0 exactly for empty or blank text |
| `DataUtils.WordCountIsWordStarts` | data_utils.py:28 | the word count equals the number of places where a non-whitespace character starts the text or follows whitespace, so the count is the number of maximal non-whitespace runs |
| `DataUtils.NoWordsIffBlank` | data_utils.py:28-29 | text has 0 words if and only if it is empty or all whitespace, so such text never passes the ≥10 filter |
| `DataUtils.Clean` | data_utils.py:25-28 | never grows the table; every kept row comes from a raw row whose text is present, with `text_length` = its word count; every raw row with present text is kept |
| `DataUtils.KeepLong` | data_utils.py:29 | keeps exactly the rows with `text_length >= 10` (both directions of membership) and never grows the table |
| `DataUtils.Survivors` | data_utils.py:25-29 | never grows the table; every surviving row comes from a raw row whose text is present, with `text_length` = its word count and at least 10 words; every raw row with present text of at least 10 words survives |
| `DataUtils.SurvivorsAppend` | data_utils.py:25-29 | the two filters act row by row: filtering a concatenation is concatenating the filtered parts, so table order is kept |
| `DataUtils.SurvivorsOfOneRow` | data_utils.py:25-29 | a single row survives exactly when its text is present and has at least 10 words |
| `DataUtils.Draw` | data_utils.py:36 | the draw returns exactly n positions, all taken from the pool, and no position twice when the pool has no duplicates |
| `DataUtils.DrawReadsOnlyItsSteps` | data_utils.py:36 | two generators that agree on the steps the draw uses give the same draw |
| `DataUtils.SamplePositions` | data_utils.py:32-36 | the number of chosen positions is `min(SAMPLE_SIZE, survivors)`; the positions are distinct and valid; below `SAMPLE_SIZE` they are 0..k-1 in order |
| `DataUtils.LoadAndPreprocess` | data_utils.py:13-39 | a missing file gives an empty sample; otherwise the size is `min(SAMPLE_SIZE, survivors)`; row j is a distinct surviving row, labelled j; every row's text is present in the raw table with at least 10 words and `text_length` = its word count |
| `DataUtils.SmallPoolKeepsAllInOrder` | data_utils.py:32-34 | with fewer than `SAMPLE_SIZE` survivors, the sample is all survivors, in table order, labelled 0..k-1 |
| `DataUtils.SampleDependsOnlyOnSeededDraws` | data_utils.py:36 | the sample depends only on the input and the first `SAMPLE_SIZE` outputs of the abstract generator seeded with 42 |
| `Pipeline.Tag` | main.py:33-36 | the tagged result carries the row's index and text; it keeps every other key of the response with its value; it adds no key of its own |
| `Pipeline.Collected` | main.py:24-37 | at most as many results as sample rows; every collected result is the tagged truthy response for some sample row |
| `Pipeline.CollectedHasEveryTruthy` | main.py:31-37 | every truthy response is collected, tagged with its row's index |
| `Pipeline.CollectedEmptyIffAllFail` | main.py:31-37 | nothing is collected if and only if no response is truthy (`None` or empty dict for every row) |
| `Pipeline.CollectedIndicesIncrease` | main.py:27-37 | over a sample labelled 0..k-1, the collected indices are valid row labels, strictly increasing, hence distinct |
| `Pipeline.AnalyseSample` | main.py:24-40 | the loop's `results_list` equals `Collected`; it calls the analyser exactly once per row, in sample order, with that row's index and text |
| `Pipeline.Columns` | main.py:54 | the results frame has a column for every key of every result, and no other |
| `Pipeline.FillNa` | main.py:70 | keeps every present cell; fills each missing sentinel column that exists in the frame with its sentinel; adds nothing else |
| `Pipeline.LeftJoin` | main.py:64-69 | the left join has at least as many rows as the sample, and every joined row carries the text and `text_length` of some sample row |
| `Pipeline.LeftJoinKeepsEverySampleRow` | main.py:64-69 | whatever the results, the left join never drops a sample row: each sample row's text, `text_length` and passthrough cells appear in some joined row |
| `Pipeline.Reconcile` | main.py:64-70 | with distinct result indices, the reconciled table has exactly one row per sample row; row i is sample row i joined with its match's cells (or none), with the sentinels filled |
| `Pipeline.AtMostOneMatch` | main.py:64-69 | with distinct indices, a sample label matches at most one result |
| `Pipeline.JoinKeepsEveryRow` | main.py:64-70 | with distinct indices, the left join has exactly one row per sample row, in order; row i is sample row i with its match's cells, or with none |
| `Pipeline.LookupCollected` | main.py:27-69 | over a sample labelled 0..k-1, the result joined to row i is row i's own tagged response when truthy, and none otherwise |
| `Pipeline.ReconciledTable` | main.py:24-70 | the final table has exactly as many rows as the sample, however many calls fail; row i is sample row i joined with its own response |
| `Pipeline.SchemaFieldsMakeColumns` | main.py:70 | one collected result carrying sentiment, topic and action_item makes all three sentinel columns exist |
| `Pipeline.UnmatchedRowGetsSentinels` | main.py:70 | once the three sentinel columns exist in the results frame, a row without a truthy response gets exactly `sentiment=UNPROCESSED`, `topic=N/A`, `action_item=N/A` |
| `Pipeline.UnmatchedRowsHoldSentinels` | main.py:64-70 | in a table whose row i is sample row i joined with its own response, once the three sentinel columns exist, every row whose call gave nothing holds exactly `UNPROCESSED`/`N/A`/`N/A` |
| `Pipeline.MatchedRowKeepsAnalyserValues` | main.py:66-70 | a matched row keeps every value the analyser supplied; only a missing sentinel field is filled; the text comes once, from the sample; there is no `original_index` column |
| `Pipeline.ThreeRowExample` | main.py:24-70 | three sampled rows, the middle call failing: three rows in sample order, the middle one with the sentinels and the others with the responses unchanged |
| `Pipeline.RunAnalysisPipeline` | main.py:9-80 | an empty sample aborts before any call; otherwise one call per row in order; the run aborts with no results exactly when every response is falsy; it stops with `MissingColumn`, writing nothing, exactly when there are results but a sentinel column is absent from the merged frame; otherwise the written table has all three sentinel columns and one row per sample row, each joined with its own response, and every row without a truthy response holds exactly `UNPROCESSED`/`N/A`/`N/A` |

## Left out

- File I/O. `os.path.exists` and `read_csv` become the input `Option<seq<RawRow<R>>>`, with None meaning the file is absent. `to_csv` becomes the `Completed` table. A run that returns it has written it.
- `llm_analyzer.py` is not part of this model. The Gemini client, the prompt, the remote call and `json.loads` become the `Analyser` parameter. Its "return None on any failure" behaviour is a `None` response.
- Pandas' random number generator. `sample(random_state=42)` is modelled as a selection without replacement driven by an abstract seeded generator. Which rows pandas would actually pick is not modelled. Pandas draws through `permutation(population)[:n]`, which may consume generator outputs differently from `Draw`'s one output per pick, so `SampleDependsOnlyOnSeededDraws` speaks of the abstract generator only.
- `time.sleep(1)` pacing, progress and diagnostic `print`s, the warning at data_utils.py:33 and the `__main__` blocks. Their output is not modelled. The one effect a print has on the run, the `KeyError` of the column selection at main.py:74, is the `MissingColumn` outcome.
- The `set_index` at main.py:61. It leaves the frame unchanged.
- Passthrough columns of the source and extra keys in a response. They are carried through but never inspected. Column-name collisions are not modelled: pandas would add `_x`/`_y` suffixes if a response had a `text_length` key. The model keeps the sample's `text_length` and the response's key apart.
- Column order of the written CSV. A final row's columns are a map (`FinalRow.fields`) plus the sample's own columns, so the order pandas gives the columns in `to_csv` is not modelled; only which columns exist and their values are.
- Non-dict JSON from the analyser (a list or a string) and `NaN` values inside a response. The analyser returns only string-to-string maps.
