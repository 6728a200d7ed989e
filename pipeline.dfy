/**
 * The analysis run: every sampled review is handed to the analyser once, in
 * sample order; truthy responses are tagged with the row's index and collected;
 * the sample is then left-joined with the collected results on that index and
 * the three result columns are filled with sentinels where nothing matched.
 */
module Pipeline {
  import opened Wrappers
  import opened DataUtils

  const ORIGINAL_INDEX: string := "original_index"
  const REVIEW_TEXT: string := "Review Text"
  const SENTIMENT: string := "sentiment"
  const TOPIC: string := "topic"
  const ACTION_ITEM: string := "action_item"

  /** The fillna values of the reconciliation step, per column. */
  const FILL: map<string, string> := map[SENTIMENT := "UNPROCESSED", TOPIC := "N/A", ACTION_ITEM := "N/A"]

  /** A response of the analyser: field name to value. */
  type Fields = map<string, string>

  /**
   * The analyser's response to the call made for the sample row with the given
   * index and text; None stands for a None return (no client, service error,
   * undecodable reply). Taking the index lets every call fail or succeed on its own.
   */
  type Analyser = (nat, string) -> Option<Fields>

  /** Python truthiness of the response: not None and not an empty dict. */
  predicate Truthy(a: Option<Fields>) {
    a.Some? && a.value != map[]
  }

  /**
   * One entry of results_list. `fields` are the columns the entry brings to the
   * join; the 'original_index' and 'Review Text' keys written into the response
   * are kept apart, since the first is the join key and the second is dropped.
   */
  datatype Tagged = Tagged(fields: Fields, originalIndex: nat, reviewText: string)

  /** The response dict after its 'original_index' and 'Review Text' keys are set. */
  function Tag(response: Fields, index: nat, text: string): (t: Tagged)
    ensures t.originalIndex == index && t.reviewText == text
    ensures ORIGINAL_INDEX !in t.fields && REVIEW_TEXT !in t.fields
    ensures forall k | k in response && k != ORIGINAL_INDEX && k != REVIEW_TEXT :: k in t.fields && t.fields[k] == response[k]
    ensures forall k | k in t.fields :: k in response
  {
    Tagged(response - {ORIGINAL_INDEX, REVIEW_TEXT}, index, text)
  }

  /** What one iteration of the batch loop appends for `row`. */
  function Step<R>(row: SampleRow<R>, analyse: Analyser): seq<Tagged> {
    var a := analyse(row.index, row.text);
    if Truthy(a) then [Tag(a.value, row.index, row.text)] else []
  }

  /** `t` is what the loop appends for `row`. */
  predicate ProducedBy<R>(t: Tagged, row: SampleRow<R>, analyse: Analyser) {
    var a := analyse(row.index, row.text);
    Truthy(a) && t == Tag(a.value, row.index, row.text)
  }

  /** results_list once the loop has visited `sample` in order. */
  function Collected<R>(sample: seq<SampleRow<R>>, analyse: Analyser): (results: seq<Tagged>)
    ensures |results| <= |sample|
    ensures forall t | t in results :: exists i | 0 <= i < |sample| :: ProducedBy(t, sample[i], analyse)
  {
    if sample == [] then []
    else
      var last := |sample| - 1;
      var before := Collected(sample[..last], analyse);
      assert forall t | t in before :: exists i | 0 <= i < |sample| :: ProducedBy(t, sample[i], analyse) by {
        forall t | t in before ensures exists i | 0 <= i < |sample| :: ProducedBy(t, sample[i], analyse) {
          var i :| 0 <= i < last && ProducedBy(t, sample[..last][i], analyse);
          assert sample[..last][i] == sample[i];
        }
      }
      before + Step(sample[last], analyse)
  }

  /** Every truthy response is collected: the converse of Collected's contract. */
  lemma {:induction false} CollectedHasEveryTruthy<R>(sample: seq<SampleRow<R>>, analyse: Analyser, i: nat)
    requires i < |sample| && Truthy(analyse(sample[i].index, sample[i].text))
    ensures Tag(analyse(sample[i].index, sample[i].text).value, sample[i].index, sample[i].text) in Collected(sample, analyse)
  {
    var last := |sample| - 1;
    if i < last {
      CollectedHasEveryTruthy(sample[..last], analyse, i);
      assert sample[..last][i] == sample[i];
    }
  }

  /** The loop collects nothing exactly when no response is truthy. */
  lemma {:induction false} CollectedEmptyIffAllFail<R>(sample: seq<SampleRow<R>>, analyse: Analyser)
    ensures Collected(sample, analyse) == [] <==>
            forall i | 0 <= i < |sample| :: !Truthy(analyse(sample[i].index, sample[i].text))
  {
    if Collected(sample, analyse) == [] {
      forall i | 0 <= i < |sample| ensures !Truthy(analyse(sample[i].index, sample[i].text)) {
        if Truthy(analyse(sample[i].index, sample[i].text)) {
          CollectedHasEveryTruthy(sample, analyse, i);
        }
      }
    } else {
      var t := Collected(sample, analyse)[0];
      assert t in Collected(sample, analyse);
    }
  }

  /** Row labels 0..k-1, as reset_index leaves them. */
  predicate IndexedByPosition<R>(sample: seq<SampleRow<R>>) {
    forall i | 0 <= i < |sample| :: sample[i].index == i
  }

  predicate DistinctIndices(results: seq<Tagged>) {
    forall i, j | 0 <= i < j < |results| :: results[i].originalIndex != results[j].originalIndex
  }

  /** Over a re-indexed sample the collected indices are distinct, valid row labels, in increasing order. */
  lemma {:induction false} CollectedIndicesIncrease<R>(sample: seq<SampleRow<R>>, analyse: Analyser)
    requires IndexedByPosition(sample)
    ensures var results := Collected(sample, analyse);
            && (forall t | t in results :: t.originalIndex < |sample|)
            && (forall i, j | 0 <= i < j < |results| :: results[i].originalIndex < results[j].originalIndex)
  {
    if sample != [] {
      var last := |sample| - 1;
      assert IndexedByPosition(sample[..last]) by {
        forall i | 0 <= i < last ensures sample[..last][i].index == i {
          assert sample[..last][i] == sample[i];
        }
      }
      CollectedIndicesIncrease(sample[..last], analyse);
      var before := Collected(sample[..last], analyse);
      var step := Step(sample[last], analyse);
      var results := Collected(sample, analyse);
      assert results == before + step;
      assert forall t | t in before :: t.originalIndex < last;
      assert forall t | t in step :: t.originalIndex == last;
      forall i, j | 0 <= i < j < |results| ensures results[i].originalIndex < results[j].originalIndex {
        if j < |before| {
          assert results[i] == before[i] && results[j] == before[j];
        } else {
          assert results[i] in before && results[j] in step;
        }
      }
    }
  }

  // ---------------------------------------------------------------------------
  // The batch loop (main.py:24-40)
  // ---------------------------------------------------------------------------

  /**
   * Visits the sample once, in order, calling the analyser on each row and
   * appending the tagged response when it is truthy. `calls` records the calls
   * made, as (index, text).
   */
  method AnalyseSample<R>(sample: seq<SampleRow<R>>, analyse: Analyser) returns (results: seq<Tagged>, calls: seq<(nat, string)>)
    ensures results == Collected(sample, analyse)
    ensures |calls| == |sample|
    ensures forall i | 0 <= i < |sample| :: calls[i] == (sample[i].index, sample[i].text)
  {
    results := [];
    calls := [];
    for i := 0 to |sample|
      invariant results == Collected(sample[..i], analyse)
      invariant |calls| == i
      invariant forall k | 0 <= k < i :: calls[k] == (sample[k].index, sample[k].text)
    {
      var row := sample[i];
      var analysis := analyse(row.index, row.text);
      calls := calls + [(row.index, row.text)];
      if Truthy(analysis) {
        results := results + [Tag(analysis.value, row.index, row.text)];
      }
      assert sample[..i + 1][..i] == sample[..i];
    }
    assert sample[..|sample|] == sample;
  }

  // ---------------------------------------------------------------------------
  // Reconciliation (main.py:54-70)
  // ---------------------------------------------------------------------------

  /** One row of the final table: the sample row's columns and the result columns. */
  datatype FinalRow<R> = FinalRow(text: string, textLength: nat, rest: R, fields: Fields)

  /** The columns of the results frame besides 'original_index' and the dropped 'Review Text'. */
  function Columns(results: seq<Tagged>): (columns: set<string>)
    ensures forall t | t in results :: t.fields.Keys <= columns
    ensures forall k | k in columns :: exists t | t in results :: k in t.fields
  {
    if results == [] then {} else results[0].fields.Keys + Columns(results[1..])
  }

  /**
   * fillna with FILL on a row whose result cells are `cells` (a column absent
   * from `cells` is NaN): each of the three columns that exists in the frame and
   * is NaN in the row gets its sentinel; pandas skips a FILL key that is not a
   * column of the frame.
   */
  function FillNa(cells: Fields, columns: set<string>): (filled: Fields)
    ensures forall k | k in cells :: k in filled && filled[k] == cells[k]
    ensures forall k | k in FILL && k in columns && k !in cells :: k in filled && filled[k] == FILL[k]
    ensures forall k | k in filled :: k in cells || (k in FILL && k in columns)
  {
    cells + map k | k in FILL && k in columns && k !in cells :: FILL[k]
  }

  function Joined<R>(row: SampleRow<R>, cells: Fields, columns: set<string>): FinalRow<R> {
    FinalRow(row.text, row.textLength, row.rest, FillNa(cells, columns))
  }

  /** The result cells of every result whose 'original_index' is `key`, in results order. */
  function Matches(results: seq<Tagged>, key: nat): seq<Fields> {
    if results == [] then []
    else (if results[0].originalIndex == key then [results[0].fields] else []) + Matches(results[1..], key)
  }

  /** The first result tagged with `key`, if any. */
  function Lookup(results: seq<Tagged>, key: nat): Option<Fields> {
    var ms := Matches(results, key);
    if ms == [] then None else Some(ms[0])
  }

  /** The rows one sample row contributes to a left join: one per match, or one with NaN result cells. */
  function RowsFor<R>(row: SampleRow<R>, ms: seq<Fields>, columns: set<string>): (rows: seq<FinalRow<R>>)
    ensures |rows| == if ms == [] then 1 else |ms|
    ensures forall f | f in rows :: f.text == row.text && f.textLength == row.textLength
  {
    if ms == [] then [Joined(row, map[], columns)]
    else seq(|ms|, j requires 0 <= j < |ms| => Joined(row, ms[j], columns))
  }

  /**
   * pd.merge(sample, results, left_index=True, right_on='original_index',
   * how='left') with 'original_index' dropped and FILL applied: the sample rows
   * in order, each once per matching result.
   */
  function LeftJoin<R>(sample: seq<SampleRow<R>>, results: seq<Tagged>, columns: set<string>): (joined: seq<FinalRow<R>>)
    ensures |joined| >= |sample|
    ensures forall f | f in joined :: exists i | 0 <= i < |sample| :: f.text == sample[i].text && f.textLength == sample[i].textLength
  {
    if sample == [] then []
    else RowsFor(sample[0], Matches(results, sample[0].index), columns) + LeftJoin(sample[1..], results, columns)
  }

  /** A left join never drops a sample row: whatever the results, sample row i appears in the join with its own cells. */
  lemma {:induction false} LeftJoinKeepsEverySampleRow<R>(sample: seq<SampleRow<R>>, results: seq<Tagged>, columns: set<string>, i: nat)
    requires i < |sample|
    ensures exists f | f in LeftJoin(sample, results, columns) ::
              f.text == sample[i].text && f.textLength == sample[i].textLength && f.rest == sample[i].rest
  {
    var head := RowsFor(sample[0], Matches(results, sample[0].index), columns);
    assert LeftJoin(sample, results, columns) == head + LeftJoin(sample[1..], results, columns);
    if i == 0 {
      var f := head[0];
      assert f in LeftJoin(sample, results, columns);
    } else {
      LeftJoinKeepsEverySampleRow(sample[1..], results, columns, i - 1);
      var f :| f in LeftJoin(sample[1..], results, columns) &&
               f.text == sample[i].text && f.textLength == sample[i].textLength && f.rest == sample[i].rest;
      assert f in LeftJoin(sample, results, columns);
    }
  }

  /** The merge, the drop of 'original_index' and the fillna, over the collected results' own columns. */
  function Reconcile<R>(sample: seq<SampleRow<R>>, results: seq<Tagged>): (table: seq<FinalRow<R>>)
    ensures DistinctIndices(results) ==> |table| == |sample|
    ensures DistinctIndices(results) ==> forall i | 0 <= i < |sample| ::
              table[i] == Joined(sample[i], Lookup(results, sample[i].index).GetOr(map[]), Columns(results))
  {
    if DistinctIndices(results) then
      JoinKeepsEveryRow(sample, results, Columns(results));
      LeftJoin(sample, results, Columns(results))
    else
      LeftJoin(sample, results, Columns(results))
  }

  lemma {:induction false} MatchesAppend(a: seq<Tagged>, b: seq<Tagged>, key: nat)
    ensures Matches(a + b, key) == Matches(a, key) + Matches(b, key)
  {
    if a == [] {
      assert a + b == b;
    } else {
      var head := if a[0].originalIndex == key then [a[0].fields] else [];
      assert (a + b)[0] == a[0] && (a + b)[1..] == a[1..] + b;
      assert Matches(a + b, key) == head + Matches(a[1..] + b, key);
      MatchesAppend(a[1..], b, key);
      assert Matches(a, key) == head + Matches(a[1..], key);
    }
  }

  lemma {:induction false} NoMatchesForAbsentKey(results: seq<Tagged>, key: nat)
    requires forall t | t in results :: t.originalIndex != key
    ensures Matches(results, key) == []
  {
    if results != [] {
      NoMatchesForAbsentKey(results[1..], key);
    }
  }

  /** With distinct indices a key matches at most one result. */
  lemma {:induction false} AtMostOneMatch(results: seq<Tagged>, key: nat)
    requires DistinctIndices(results)
    ensures |Matches(results, key)| <= 1
  {
    if results != [] {
      var rest := results[1..];
      assert DistinctIndices(rest) by {
        forall i, j | 0 <= i < j < |rest| ensures rest[i].originalIndex != rest[j].originalIndex {
          assert rest[i] == results[i + 1] && rest[j] == results[j + 1];
        }
      }
      AtMostOneMatch(rest, key);
      if results[0].originalIndex == key {
        forall t | t in rest ensures t.originalIndex != key {
          var j :| 0 <= j < |rest| && rest[j] == t;
          assert results[j + 1] == t;
        }
        NoMatchesForAbsentKey(rest, key);
      }
    }
  }

  /**
   * The left join neither drops nor duplicates a sample row when each index was
   * collected at most once: row i of the table is sample row i joined with its
   * match, or with NaN result cells when it has none.
   */
  lemma {:induction false} JoinKeepsEveryRow<R>(sample: seq<SampleRow<R>>, results: seq<Tagged>, columns: set<string>)
    requires DistinctIndices(results)
    ensures |LeftJoin(sample, results, columns)| == |sample|
    ensures forall i | 0 <= i < |sample| ::
              LeftJoin(sample, results, columns)[i] == Joined(sample[i], Lookup(results, sample[i].index).GetOr(map[]), columns)
  {
    if sample != [] {
      JoinKeepsEveryRow(sample[1..], results, columns);
      AtMostOneMatch(results, sample[0].index);
      var head := RowsFor(sample[0], Matches(results, sample[0].index), columns);
      assert head == [Joined(sample[0], Lookup(results, sample[0].index).GetOr(map[]), columns)];
      forall i | 0 <= i < |sample|
        ensures LeftJoin(sample, results, columns)[i] == Joined(sample[i], Lookup(results, sample[i].index).GetOr(map[]), columns)
      {
        if i > 0 {
          assert sample[1..][i - 1] == sample[i];
        }
      }
    }
  }

  /** Over a re-indexed sample, the result joined to row i is what the analyser returned for row i, when truthy. */
  lemma {:induction false} LookupCollected<R>(sample: seq<SampleRow<R>>, analyse: Analyser, i: nat)
    requires IndexedByPosition(sample) && i < |sample|
    ensures var a := analyse(i, sample[i].text);
            Lookup(Collected(sample, analyse), i) == if Truthy(a) then Some(Tag(a.value, i, sample[i].text).fields) else None
  {
    var last := |sample| - 1;
    var prefix := sample[..last];
    var before := Collected(prefix, analyse);
    var step := Step(sample[last], analyse);
    assert Collected(sample, analyse) == before + step;
    assert IndexedByPosition(prefix) by {
      forall k | 0 <= k < |prefix| ensures prefix[k].index == k {
        assert prefix[k] == sample[k];
      }
    }
    CollectedIndicesIncrease(prefix, analyse);
    MatchesAppend(before, step, i);
    if step != [] {
      MatchesOfOne(step[0], i);
    }
    if i < last {
      LookupCollected(prefix, analyse, i);
      assert prefix[i] == sample[i];
    } else {
      NoMatchesForAbsentKey(before, i);
    }
  }

  lemma MatchesOfOne(t: Tagged, key: nat)
    ensures Matches([t], key) == if t.originalIndex == key then [t.fields] else []
  {
    assert [t][1..] == [];
  }

  /** The result cells a row of the final table carries for sample row `row`: the tagged response, or none. */
  function CellsFor<R>(row: SampleRow<R>, analyse: Analyser): Fields {
    var a := analyse(row.index, row.text);
    if Truthy(a) then Tag(a.value, row.index, row.text).fields else map[]
  }

  /** End to end over a re-indexed sample: one table row per sample row, in order, carrying that row's own response. */
  lemma ReconciledTable<R>(sample: seq<SampleRow<R>>, analyse: Analyser)
    requires IndexedByPosition(sample)
    ensures var results := Collected(sample, analyse);
            var table := Reconcile(sample, results);
            && |table| == |sample|
            && forall i | 0 <= i < |sample| :: table[i] == Joined(sample[i], CellsFor(sample[i], analyse), Columns(results))
  {
    var results := Collected(sample, analyse);
    CollectedIndicesIncrease(sample, analyse);
    forall i | 0 <= i < |sample|
      ensures Lookup(results, sample[i].index).GetOr(map[]) == CellsFor(sample[i], analyse)
    {
      LookupCollected(sample, analyse, i);
    }
  }

  /** The three sentinel columns exist whenever some collected result carries all three fields, as the response schema requires. */
  lemma SchemaFieldsMakeColumns(results: seq<Tagged>, t: Tagged)
    requires t in results && SENTIMENT in t.fields && TOPIC in t.fields && ACTION_ITEM in t.fields
    ensures FILL.Keys <= Columns(results)
  {
  }

  /** A row the analyser produced nothing for gets UNPROCESSED / N/A / N/A once those columns exist, and no other result cell. */
  lemma UnmatchedRowGetsSentinels<R>(row: SampleRow<R>, analyse: Analyser, columns: set<string>)
    requires !Truthy(analyse(row.index, row.text))
    requires FILL.Keys <= columns
    ensures Joined(row, CellsFor(row, analyse), columns).fields == FILL
  {
  }

  /**
   * A matched row keeps every value the analyser supplied; only a missing
   * sentinel column is filled; the review text appears once, from the sample,
   * and there is no 'original_index' column.
   */
  lemma MatchedRowKeepsAnalyserValues<R>(row: SampleRow<R>, analyse: Analyser, columns: set<string>)
    requires Truthy(analyse(row.index, row.text))
    ensures var response := analyse(row.index, row.text).value;
            var out := Joined(row, CellsFor(row, analyse), columns);
            && out.text == row.text
            && ORIGINAL_INDEX !in out.fields && REVIEW_TEXT !in out.fields
            && (forall k | k in response && k != ORIGINAL_INDEX && k != REVIEW_TEXT :: k in out.fields && out.fields[k] == response[k])
            && (forall k | k in FILL && k in columns && k !in response :: k in out.fields && out.fields[k] == FILL[k])
            && (forall k | k in out.fields :: k in response || k in FILL)
  {
  }

  /**
   * In a table whose row i is sample row i joined with its own response, every
   * row whose call gave nothing holds exactly the sentinels once the three
   * sentinel columns exist.
   */
  lemma UnmatchedRowsHoldSentinels<R>(sample: seq<SampleRow<R>>, analyse: Analyser, columns: set<string>, table: seq<FinalRow<R>>)
    requires IndexedByPosition(sample) && FILL.Keys <= columns
    requires |table| == |sample|
    requires forall i | 0 <= i < |sample| :: table[i] == Joined(sample[i], CellsFor(sample[i], analyse), columns)
    ensures forall i | 0 <= i < |sample| && !Truthy(analyse(i, sample[i].text)) :: table[i].fields == FILL
  {
    forall i | 0 <= i < |sample| && !Truthy(analyse(i, sample[i].text))
      ensures table[i].fields == FILL
    {
      assert sample[i].index == i;
      UnmatchedRowGetsSentinels(sample[i], analyse, columns);
    }
  }

  const EXAMPLE_ROW0: Fields := map[SENTIMENT := "Positive", TOPIC := "Quality", ACTION_ITEM := "Reinforce seams"]
  const EXAMPLE_ROW2: Fields := map[SENTIMENT := "Negative", TOPIC := "Sizing_Fit", ACTION_ITEM := "Revise size chart"]

  /** An analyser whose call for row 1 fails and whose calls for rows 0 and 2 return all three fields. */
  function ExampleAnalyser(index: nat, text: string): Option<Fields> {
    if index == 0 then Some(EXAMPLE_ROW0) else if index == 2 then Some(EXAMPLE_ROW2) else None
  }

  /**
   * Three sampled reviews with ExampleAnalyser: the table has three rows in
   * sample order, row 1 with the sentinels and rows 0 and 2 with the responses.
   */
  lemma ThreeRowExample<R>(sample: seq<SampleRow<R>>)
    requires |sample| == 3 && IndexedByPosition(sample)
    ensures var table := Reconcile(sample, Collected(sample, ExampleAnalyser));
            && |table| == 3
            && (forall i | 0 <= i < 3 :: table[i].text == sample[i].text)
            && table[0].fields == EXAMPLE_ROW0
            && table[1].fields == FILL
            && table[2].fields == EXAMPLE_ROW2
  {
    ExampleHasAllColumns(sample);
    ExampleRowCells(sample, Columns(Collected(sample, ExampleAnalyser)));
    ReconciledTable(sample, ExampleAnalyser);
  }

  lemma ExampleRowCells<R>(sample: seq<SampleRow<R>>, columns: set<string>)
    requires |sample| == 3 && IndexedByPosition(sample) && FILL.Keys <= columns
    ensures Joined(sample[0], CellsFor(sample[0], ExampleAnalyser), columns).fields == EXAMPLE_ROW0
    ensures Joined(sample[1], CellsFor(sample[1], ExampleAnalyser), columns).fields == FILL
    ensures Joined(sample[2], CellsFor(sample[2], ExampleAnalyser), columns).fields == EXAMPLE_ROW2
  {
    assert CellsFor(sample[0], ExampleAnalyser) == EXAMPLE_ROW0 by {
      assert sample[0].index == 0;
      TagKeepsPlainResponse(EXAMPLE_ROW0, 0, sample[0].text);
    }
    assert CellsFor(sample[2], ExampleAnalyser) == EXAMPLE_ROW2 by {
      assert sample[2].index == 2;
      TagKeepsPlainResponse(EXAMPLE_ROW2, 2, sample[2].text);
    }
    FillNaOfCompleteRow(EXAMPLE_ROW0, columns);
    FillNaOfCompleteRow(EXAMPLE_ROW2, columns);
    assert sample[1].index == 1;
    UnmatchedRowGetsSentinels(sample[1], ExampleAnalyser, columns);
  }

  lemma ExampleHasAllColumns<R>(sample: seq<SampleRow<R>>)
    requires |sample| == 3 && IndexedByPosition(sample)
    ensures FILL.Keys <= Columns(Collected(sample, ExampleAnalyser))
  {
    assert sample[0].index == 0;
    assert ExampleAnalyser(sample[0].index, sample[0].text) == Some(EXAMPLE_ROW0);
    assert SENTIMENT in EXAMPLE_ROW0;
    var t := Tag(EXAMPLE_ROW0, 0, sample[0].text);
    TagKeepsPlainResponse(EXAMPLE_ROW0, 0, sample[0].text);
    assert t.fields == EXAMPLE_ROW0;
    CollectedHasEveryTruthy(sample, ExampleAnalyser, 0);
    SchemaFieldsMakeColumns(Collected(sample, ExampleAnalyser), t);
  }

  /** A response without 'original_index' and 'Review Text' keys is tagged unchanged. */
  lemma TagKeepsPlainResponse(response: Fields, index: nat, text: string)
    requires ORIGINAL_INDEX !in response && REVIEW_TEXT !in response
    ensures Tag(response, index, text).fields == response
  {
  }

  /** fillna leaves a row that has all three sentinel columns unchanged. */
  lemma FillNaOfCompleteRow(cells: Fields, columns: set<string>)
    requires SENTIMENT in cells && TOPIC in cells && ACTION_ITEM in cells
    ensures FillNa(cells, columns) == cells
  {
  }

  // ---------------------------------------------------------------------------
  // run_analysis_pipeline (main.py:9-80)
  // ---------------------------------------------------------------------------

  /**
   * How a run ends: aborted with no data, aborted with no results, stopped by
   * the KeyError of the column selection before the write (a sentinel column
   * missing from the merged frame), or the table written to
   * master_analysis_data.csv and returned.
   */
  datatype RunResult<R> = DataUnavailable | NoResults | MissingColumn | Completed(table: seq<FinalRow<R>>)

  method RunAnalysisPipeline<R(==)>(source: Option<seq<RawRow<R>>>, rng: Rng, analyse: Analyser)
    returns (run: RunResult<R>, calls: seq<(nat, string)>)
    ensures var sample := LoadAndPreprocess(source, rng);
            && (run.DataUnavailable? <==> sample == [])
            && (sample == [] ==> calls == [])
            && (sample != [] ==> |calls| == |sample| && forall i | 0 <= i < |sample| :: calls[i] == (i, sample[i].text))
            && (run.NoResults? <==> sample != [] && forall i | 0 <= i < |sample| :: !Truthy(analyse(i, sample[i].text)))
            && (run.MissingColumn? <==>
                  sample != [] && Collected(sample, analyse) != [] && !(FILL.Keys <= Columns(Collected(sample, analyse))))
            && (run.Completed? ==>
                  var columns := Columns(Collected(sample, analyse));
                  && FILL.Keys <= columns
                  && |run.table| == |sample|
                  && (forall i | 0 <= i < |sample| :: run.table[i] == Joined(sample[i], CellsFor(sample[i], analyse), columns))
                  && (forall i | 0 <= i < |sample| && !Truthy(analyse(i, sample[i].text)) :: run.table[i].fields == FILL))
  {
    var sample := LoadAndPreprocess(source, rng);
    if sample == [] {
      return DataUnavailable, [];
    }
    var results;
    results, calls := AnalyseSample(sample, analyse);
    CollectedEmptyIffAllFail(sample, analyse);
    if results == [] {
      return NoResults, calls;
    }
    if !(FILL.Keys <= Columns(results)) {
      return MissingColumn, calls;
    }
    var table := Reconcile(sample, results);
    assert IndexedByPosition(sample);
    ReconciledTable(sample, analyse);
    UnmatchedRowsHoldSentinels(sample, analyse, Columns(results), table);
    run := Completed(table);
  }
}
