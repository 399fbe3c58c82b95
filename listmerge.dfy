/**
 The merge as the program runs it: the primary file object whose `index` (its
 list of row objects) is filled while the engine is loaded, seeded with
 placeholder columns, and then updated in place by every secondary record.
 Each method is proved to compute the corresponding function of Linkage.
 */
module ListMerge {
  import opened JsObjects
  import opened Schema
  import opened Engine
  import opened Linkage

  datatype Outcome = Pass | Fail(error: Error)

  /** The primary file: its headers and selected fields, and the row table `index`. */
  class PrimaryFile {
    const name: string
    const headers: seq<string>
    const selected: seq<string>
    var index: seq<Row>

    constructor (source: Source)
      ensures name == source.name && headers == source.headers && selected == source.selected
      ensures index == []
    {
      name := source.name;
      headers := source.headers;
      selected := source.selected;
      index := [];
    }

    /**
     `loadSearchEngine`: configure the engine with weight 1 for each selected
     field, then for every record after the first push its row onto `index`
     and hand the row's selected fields to the engine under the row's
     position, then consolidate.
     */
    method LoadSearchEngine(records: seq<Record>, engine: SearchEngine)
      modifies this, engine
      ensures index == LoadedRows(headers, records)
      ensures engine.weights == FieldWeights(selected)
      ensures engine.docs == old(engine.docs) + Documents(index, selected)
      ensures engine.consolidated
    {
      engine.DefineConfig(FieldWeights(selected));
      var rownum := 0;
      index := [];
      assert old(engine.docs) + Documents(index, selected) == old(engine.docs);
      for i := 0 to |records|
        invariant rownum == i
        invariant index == LoadedRows(headers, records[..i])
        invariant engine.weights == FieldWeights(selected)
        invariant engine.docs == old(engine.docs) + Documents(index, selected)
      {
        var values := records[i];
        var isHeader := rownum == 0;
        rownum := rownum + 1;
        LoadedRowsStep(headers, records, i);
        if !isHeader {
          DocumentsSnoc(old(engine.docs), index, RowOf(headers, values), selected);
          LoadRecord(values, engine);
        }
      }
      assert records[..|records|] == records;
      engine.Consolidate();
    }

    /**
     The body of the `data` handler of `loadSearchEngine` for one data record:
     push its row onto `index` and hand the row's selected fields to the
     engine under the row's position.
     */
    method LoadRecord(values: Record, engine: SearchEngine)
      modifies this, engine
      ensures index == old(index) + [RowOf(headers, values)]
      ensures engine.docs == old(engine.docs) + [Doc(Pick(RowOf(headers, values), selected), |old(index)|)]
      ensures engine.weights == old(engine.weights) && engine.consolidated == old(engine.consolidated)
    {
      var row := RowOf(headers, values);
      index := index + [row];
      engine.AddDoc(Pick(row, selected), |index| - 1);
    }

    /** `a.index.forEach(row => Object.assign(row, addColumns))`. */
    method SeedPlaceholders(addHeaders: seq<string>)
      modifies this
      ensures index == Seeded(old(index), addHeaders)
    {
      var addColumns := Placeholders(addHeaders);
      for i := 0 to |index|
        invariant |index| == |old(index)|
        invariant forall j :: 0 <= j < i ==> index[j] == old(index)[j] + addColumns
        invariant forall j :: i <= j < |index| ==> index[j] == old(index)[j]
      {
        index := index[i := index[i] + addColumns];
      }
    }

    /**
     The body of the `data` handler of `matchFile` for one record: build the
     query, take the engine's first hit, assign the record's columns onto the
     row it names. Nothing changes when it fails.
     */
    method MatchRecord(b: Source, fileHeaders: seq<string>, values: Record, search: Oracle) returns (outcome: Outcome)
      modifies this
      ensures outcome.Pass? ==> Step(old(index), fileHeaders, values, Hits(b, values, search)) == Ok(index)
      ensures outcome.Fail? ==> Step(old(index), fileHeaders, values, Hits(b, values, search)) == Err(outcome.error)
      ensures outcome.Fail? ==> index == old(index)
    {
      var query := Query(b.headers, b.selected, values);
      var hits := search(query);
      if |hits| == 0 {
        return Fail(NoMatch);
      }
      var target, certainty := hits[0].id, hits[0].certainty;
      if target >= |index| {
        return Fail(MissingRow(target));
      }
      index := index[target := index[target] + Patch(fileHeaders, values, certainty)];
      outcome := Pass;
    }

    /** `matchFile`: every record after the header record, in order; the first failure aborts. */
    method MatchFile(b: Source, fileHeaders: seq<string>, search: Oracle) returns (outcome: Outcome)
      modifies this
      ensures outcome.Pass? ==> MatchAll(old(index), fileHeaders, DataRecords(b.records), RankingOf(b, EngineLookup(search))) == Ok(index)
      ensures outcome.Fail? ==> MatchAll(old(index), fileHeaders, DataRecords(b.records), RankingOf(b, EngineLookup(search))) == Err(outcome.error)
    {
      ghost var rank := RankingOf(b, EngineLookup(search));
      var rownum := 0;
      for i := 0 to |b.records|
        invariant rownum == i
        invariant MatchAll(old(index), fileHeaders, DataRecords(b.records[..i]), rank) == Ok(index)
      {
        var values := b.records[i];
        var isHeader := rownum == 0;
        rownum := rownum + 1;
        MatchPrefixStep(old(index), fileHeaders, b.records, i, rank, index);
        if !isHeader {
          assert rank(values) == Hits(b, values, search);
          outcome := MatchRecord(b, fileHeaders, values, search);
          if outcome.Fail? {
            MatchPrefixAborts(old(index), fileHeaders, b.records, i, rank);
            return;
          }
        }
      }
      assert b.records[..|b.records|] == b.records;
      outcome := Pass;
    }
  }

  /**
   The main program once the files are read and the fields chosen: reject
   fewer than two files, load the first file into the engine, seed its rows
   with every secondary column, then merge each secondary file in order. The
   result is the output table, or the error that aborts the run.
   */
  method Run(files: seq<Source>, pascal: string -> string, search: Oracle) returns (result: Result<seq<Row>>)
    ensures result == Merged(files, pascal, search)
  {
    if |files| < 2 {
      return Err(InsufficientSources);
    }
    var engine := new SearchEngine();
    var a := new PrimaryFile(files[0]);
    a.LoadSearchEngine(files[0].records, engine);
    a.SeedPlaceholders(AddHeaders(pascal, files[1..]));
    ghost var seeded := a.index;
    assert seeded == SeededPrimary(files, pascal);
    for i := 1 to |files|
      invariant MatchFiles(seeded, pascal, files[1..i], EngineLookup(search)) == Ok(a.index)
    {
      var b := files[i];
      MatchFilesPrefixStep(seeded, pascal, files, i, EngineLookup(search), a.index);
      var outcome := a.MatchFile(b, FileHeaders(pascal, b.name, b.headers), search);
      if outcome.Fail? {
        MatchFilesPrefixAborts(seeded, pascal, files, i, EngineLookup(search));
        return Err(outcome.error);
      }
    }
    assert files[1..|files|] == files[1..];
    result := Ok(a.index);
  }
}
