/**
 The merge accumulator as functions on values: loading the primary table,
 seeding it with placeholder columns, and writing each secondary record into
 the primary row the engine ranks first. The imperative code in ListMerge is
 proved to compute exactly these functions; the lemmas here state what they
 guarantee.
 */
module Linkage {
  import opened JsObjects
  import opened Schema
  import opened Engine

  /** Why a run stops without output. */
  datatype Error =
    | InsufficientSources  // fewer than two files
    | NoMatch  // the engine returned no hit, so destructuring its first hit throws
    | MissingRow(id: nat)  // the hit names no primary row, so `Object.assign` gets `undefined`

  datatype Result<T> = Ok(value: T) | Err(error: Error)

  /** A CSV record: the list of its field values. */
  type Record = seq<string>

  /** The engine's `search(query, 1)`: hits ranked best first, possibly none. */
  type Oracle = string -> seq<Hit>

  function Texts(values: Record): (cells: seq<Cell>)
    ensures |cells| == |values|
    ensures forall i :: 0 <= i < |values| ==> cells[i] == Text(values[i])
  {
    seq(|values|, i requires 0 <= i < |values| => Text(values[i]))
  }

  /** The records after the first one, which the reader skips as the header record. */
  function DataRecords(records: seq<Record>): (data: seq<Record>)
    ensures |data| == if |records| == 0 then 0 else |records| - 1
    ensures forall i :: 0 <= i < |data| ==> data[i] == records[i + 1]
  {
    if |records| == 0 then [] else records[1..]
  }

  /** `zipObject(headers, values)`: a record as a row object. */
  function RowOf(headers: seq<string>, values: Record): (row: Row)
    ensures row.Keys == set h | h in headers
    ensures forall h :: h in row ==> row[h] == Absent || (row[h].Text? && row[h].text in values)
  {
    var row := ZipObject(headers, Texts(values), Absent);
    assert forall c :: c in Texts(values) ==> c.Text? && c.text in values;
    row
  }

  /**
   A row has exactly the header columns, and with distinct headers it maps
   `headers[j]` to `values[j]` (to `undefined` when the record is shorter).
   */
  lemma RowOfAt(headers: seq<string>, values: Record, j: nat)
    requires Distinct(headers)
    requires j < |headers|
    ensures RowOf(headers, values).Keys == set h | h in headers
    ensures RowOf(headers, values)[headers[j]] == if j < |values| then Text(values[j]) else Absent
  {
    ZipObjectAt(headers, Texts(values), Absent, j);
  }

  /** `file.index` after loading: one row per record after the header record, in file order. */
  function LoadedRows(headers: seq<string>, records: seq<Record>): (rows: seq<Row>)
    ensures |rows| == |DataRecords(records)|
    ensures forall i :: 0 <= i < |rows| ==> rows[i] == RowOf(headers, records[i + 1])
  {
    var data := DataRecords(records);
    seq(|data|, i requires 0 <= i < |data| => RowOf(headers, data[i]))
  }

  /** The documents the engine receives: row `i`'s selected fields, filed under id `i`. */
  function Documents(rows: seq<Row>, selected: seq<string>): (docs: seq<Doc>)
    ensures |docs| == |rows|
    ensures forall i :: 0 <= i < |docs| ==> docs[i].id == i && docs[i].fields.Keys == rows[i].Keys * set s | s in selected
    ensures forall i :: 0 <= i < |docs| ==> forall f :: f in docs[i].fields ==> f in rows[i] && docs[i].fields[f] == rows[i][f]
  {
    seq(|rows|, i requires 0 <= i < |rows| => Doc(Pick(rows[i], selected), i))
  }

  /** Reading record `i`: the header record adds no row, any later record adds its own row at the end. */
  lemma LoadedRowsStep(headers: seq<string>, records: seq<Record>, i: nat)
    requires i < |records|
    ensures LoadedRows(headers, records[..i + 1]) ==
      if i == 0 then [] else LoadedRows(headers, records[..i]) + [RowOf(headers, records[i])]
  {
  }

  /** Filing one more row after the documents `pre` files one more document, under the row's position. */
  lemma DocumentsSnoc(pre: seq<Doc>, rows: seq<Row>, row: Row, selected: seq<string>)
    ensures pre + Documents(rows + [row], selected) == pre + Documents(rows, selected) + [Doc(Pick(row, selected), |rows|)]
  {
    assert Documents(rows + [row], selected) == Documents(rows, selected) + [Doc(Pick(row, selected), |rows|)];
  }

  /** Every id the oracle returns is a position in a table of `n` rows. */
  ghost predicate ValidIds(search: Oracle, n: nat)
  {
    forall q, k :: 0 <= k < |search(q)| ==> search(q)[k].id < n
  }

  /**
   Because ids are positions, an engine that only returns ids it was given
   only returns positions of the table.
   */
  lemma AddedIdsAreRows(search: Oracle, rows: seq<Row>, selected: seq<string>)
    requires ReturnsAddedIds(search, Documents(rows, selected))
    ensures ValidIds(search, |rows|)
  {
    var docs := Documents(rows, selected);
    forall q, k | 0 <= k < |search(q)|
      ensures search(q)[k].id < |rows|
    {
      var d :| 0 <= d < |docs| && docs[d].id == search(q)[k].id;
    }
  }

  /** `addColumns`: every secondary column, set to `undefined`. */
  function Placeholders(addHeaders: seq<string>): (p: Row)
    ensures p.Keys == set c | c in addHeaders
    ensures forall c :: c in p ==> p[c] == Absent
  {
    ZipObject(addHeaders, seq(|addHeaders|, _ => Absent), Absent)
  }

  /**
   The table after `Object.assign(row, addColumns)` on every row: the same
   number of rows, every placeholder column present and `undefined`, every
   other column as it was.
   */
  function Seeded(rows: seq<Row>, addHeaders: seq<string>): (seeded: seq<Row>)
    ensures |seeded| == |rows|
    ensures forall i :: 0 <= i < |rows| ==> seeded[i].Keys == rows[i].Keys + set c | c in addHeaders
    ensures forall i, c :: 0 <= i < |rows| && c in addHeaders ==> seeded[i][c] == Absent
    ensures forall i, c :: 0 <= i < |rows| && c in rows[i] && c !in addHeaders ==> seeded[i][c] == rows[i][c]
  {
    var p := Placeholders(addHeaders);
    var seeded := seq(|rows|, i requires 0 <= i < |rows| => rows[i] + p);
    assert forall i :: 0 <= i < |rows| ==> seeded[i] == rows[i] + p;
    seeded
  }

  /** Every row has exactly the columns `cols`. */
  ghost predicate Uniform(rows: seq<Row>, cols: set<string>)
  {
    forall i :: 0 <= i < |rows| ==> rows[i].Keys == cols
  }

  /** Loaded rows share the header columns; seeding keeps the schema uniform and adds the placeholder columns. */
  lemma SeededUniform(headers: seq<string>, records: seq<Record>, addHeaders: seq<string>)
    ensures Uniform(LoadedRows(headers, records), set h | h in headers)
    ensures Uniform(Seeded(LoadedRows(headers, records), addHeaders), (set h | h in headers) + set c | c in addHeaders)
  {
  }

  /** The query words: the values of the selected fields of a record, in selection order. */
  function QueryParts(headers: seq<string>, selected: seq<string>, values: Record): (parts: seq<string>)
    ensures |parts| <= |selected|
    ensures forall k :: 0 <= k < |parts| ==> parts[k] == "" || parts[k] in values
  {
    var row := RowOf(headers, values);
    var keys := PickedKeys(row, selected);
    DistinctSubsetLength(keys, selected);
    seq(|keys|, k requires 0 <= k < |keys| => CellText(row[keys[k]]))
  }

  /** `Object.values(pick(zipObject(b.headers, values), b.selected)).join(' ')`. */
  function Query(headers: seq<string>, selected: seq<string>, values: Record): string
  {
    Join(QueryParts(headers, selected, values))
  }

  /**
   With distinct headers and a distinct selection of them, the query has one
   part per selected field, in selection order, and the part for `selected[k]`
   is that field's value (empty when the record is too short).
   */
  lemma QueryPartsAt(headers: seq<string>, selected: seq<string>, values: Record)
    requires Distinct(headers) && Distinct(selected)
    requires forall s :: s in selected ==> s in headers
    ensures |QueryParts(headers, selected, values)| == |selected|
    ensures forall k, j :: 0 <= k < |selected| && 0 <= j < |headers| && headers[j] == selected[k] ==>
      QueryParts(headers, selected, values)[k] == if j < |values| then values[j] else ""
  {
    var row := RowOf(headers, values);
    PickedKeysAll(row, selected);
    forall k, j | 0 <= k < |selected| && 0 <= j < |headers| && headers[j] == selected[k]
      ensures QueryParts(headers, selected, values)[k] == if j < |values| then values[j] else ""
    {
      RowOfAt(headers, values, j);
    }
  }

  /** The words of the query are the words of its parts, in order: joining adds and removes none. */
  lemma QueryWords(headers: seq<string>, selected: seq<string>, values: Record)
    ensures Words(Query(headers, selected, values)) == Concat(WordsEach(QueryParts(headers, selected, values)))
  {
    WordsOfJoin(QueryParts(headers, selected, values));
  }

  /** The engine's hits for a record of secondary file `b`: `a.engine.search(query, 1)`. */
  function Hits(b: Source, values: Record, search: Oracle): seq<Hit>
  {
    search(Query(b.headers, b.selected, values))
  }

  /** The engine's answer for each record of one secondary file. */
  type Ranking = Record -> seq<Hit>

  /** How the run consults the engine: the hits for a record of a given secondary file. */
  type Lookup = (Source, Record) -> seq<Hit>

  /** The lookup the program performs: build the record's query and search for it. */
  function EngineLookup(search: Oracle): Lookup
  {
    (b, values) => Hits(b, values, search)
  }

  /** The answers a lookup gives for the records of file `b`. */
  function RankingOf(b: Source, lookup: Lookup): Ranking
  {
    values => lookup(b, values)
  }

  /** The top hit names row `id`. */
  predicate Targets(hits: seq<Hit>, id: nat)
  {
    |hits| > 0 && hits[0].id == id
  }

  /** Every id a ranking returns is a position in a table of `n` rows. */
  ghost predicate ValidRanking(rank: Ranking, n: nat)
  {
    forall v, k :: 0 <= k < |rank(v)| ==> rank(v)[k].id < n
  }

  /** Every id a lookup returns is a position in a table of `n` rows. */
  ghost predicate ValidLookup(lookup: Lookup, n: nat)
  {
    forall b, v, k :: 0 <= k < |lookup(b, v)| ==> lookup(b, v)[k].id < n
  }

  /** Whatever query it builds, the program's lookup returns only ids the oracle returns. */
  lemma ValidIdsLookup(search: Oracle, n: nat)
    requires ValidIds(search, n)
    ensures ValidLookup(EngineLookup(search), n)
  {
    forall b, v, k | 0 <= k < |EngineLookup(search)(b, v)|
      ensures EngineLookup(search)(b, v)[k].id < n
    {
      assert EngineLookup(search)(b, v) == search(Query(b.headers, b.selected, v));
    }
  }

  lemma ValidLookupRanking(lookup: Lookup, b: Source, n: nat)
    requires ValidLookup(lookup, n)
    ensures ValidRanking(RankingOf(b, lookup), n)
  {
    forall v, k | 0 <= k < |RankingOf(b, lookup)(v)|
      ensures RankingOf(b, lookup)(v)[k].id < n
    {
      assert RankingOf(b, lookup)(v) == lookup(b, v);
    }
  }

  /** `zipObject(b.fileHeaders, values.concat(certainty))`: what is written into the matched row. */
  function Patch(fileHeaders: seq<string>, values: Record, certainty: real): (p: Row)
    ensures p.Keys == set c | c in fileHeaders
  {
    ZipObject(fileHeaders, Texts(values) + [Certainty(certainty)], Absent)
  }

  /**
   When a record has as many values as its file has headers (distinct, none
   named `match_certainty`), each value lands in its own prefixed column and
   the certainty in the `match_certainty` column.
   */
  lemma PatchAligned(pascal: string -> string, b: Source, values: Record, certainty: real)
    requires Distinct(b.headers) && CertaintyHeader !in b.headers
    requires |values| == |b.headers|
    ensures var p := Patch(FileHeaders(pascal, b.name, b.headers), values, certainty);
      && (forall j :: 0 <= j < |b.headers| ==> p[MakeColName(pascal, b.name, b.headers[j])] == Text(values[j]))
      && p[MakeColName(pascal, b.name, CertaintyHeader)] == Certainty(certainty)
  {
    var fh := FileHeaders(pascal, b.name, b.headers);
    FileHeadersDistinct(pascal, b.name, b.headers);
    ZipObjectDistinct(fh, Texts(values) + [Certainty(certainty)], Absent);
  }

  /**
   A record shorter than the headers shifts the certainty: it lands in the
   column of the first missing value, and `match_certainty` stays `undefined`.
   */
  lemma PatchShortRecord(pascal: string -> string, b: Source, values: Record, certainty: real)
    requires Distinct(b.headers) && CertaintyHeader !in b.headers
    requires |values| < |b.headers|
    ensures var p := Patch(FileHeaders(pascal, b.name, b.headers), values, certainty);
      && p[MakeColName(pascal, b.name, b.headers[|values|])] == Certainty(certainty)
      && p[MakeColName(pascal, b.name, CertaintyHeader)] == Absent
  {
    var fh := FileHeaders(pascal, b.name, b.headers);
    FileHeadersDistinct(pascal, b.name, b.headers);
    ZipObjectDistinct(fh, Texts(values) + [Certainty(certainty)], Absent);
  }

  /**
   One secondary record, given the engine's hits for it: take the top hit and
   assign the record's values and the certainty onto that primary row. It
   fails when there is no hit, or the hit names no row.
   */
  function Step(rows: seq<Row>, fileHeaders: seq<string>, values: Record, hits: seq<Hit>): (r: Result<seq<Row>>)
    ensures r.Ok? <==> |hits| > 0 && hits[0].id < |rows|
    ensures r.Ok? ==> |r.value| == |rows|
    ensures |hits| == 0 ==> r == Err(NoMatch)
  {
    if |hits| == 0 then Err(NoMatch)
    else if hits[0].id >= |rows| then Err(MissingRow(hits[0].id))
    else
      var id := hits[0].id;
      Ok(rows[id := rows[id] + Patch(fileHeaders, values, hits[0].certainty)])
  }

  /**
   The write-back frame: only the matched row changes, it gains exactly the
   file's columns, those columns hold what the record wrote, and every other
   column keeps its value.
   */
  lemma StepFrame(rows: seq<Row>, fileHeaders: seq<string>, values: Record, hits: seq<Hit>, id: nat)
    requires Targets(hits, id)
    requires Step(rows, fileHeaders, values, hits).Ok?
    ensures var r := Step(rows, fileHeaders, values, hits).value;
      && (forall i :: 0 <= i < |rows| && i != id ==> r[i] == rows[i])
      && r[id].Keys == rows[id].Keys + set c | c in fileHeaders
      && (forall c :: c in r[id] ==>
            r[id][c] == if c in fileHeaders then Patch(fileHeaders, values, hits[0].certainty)[c] else rows[id][c])
  {
  }

  /** `matchFile`: every data record of a secondary file, in file order; the first failure aborts. */
  function MatchAll(rows: seq<Row>, fileHeaders: seq<string>, recs: seq<Record>, rank: Ranking): (r: Result<seq<Row>>)
    ensures r.Ok? ==> |r.value| == |rows|
    decreases |recs|
  {
    if |recs| == 0 then Ok(rows)
    else
      var last := recs[|recs| - 1];
      match MatchAll(rows, fileHeaders, recs[..|recs| - 1], rank)
      case Err(e) => Err(e)
      case Ok(done) => Step(done, fileHeaders, last, rank(last))
  }

  /** Merging one more record continues from the table the earlier records produced. */
  lemma MatchAllSnoc(rows: seq<Row>, fileHeaders: seq<string>, recs: seq<Record>, values: Record, rank: Ranking, done: seq<Row>)
    requires MatchAll(rows, fileHeaders, recs, rank) == Ok(done)
    ensures MatchAll(rows, fileHeaders, recs + [values], rank) == Step(done, fileHeaders, values, rank(values))
  {
    assert (recs + [values])[..|recs|] == recs;
  }

  /** Once a record fails, the file fails with that error whatever records follow. */
  lemma {:induction false} MatchAllAborts(rows: seq<Row>, fileHeaders: seq<string>, recs: seq<Record>, more: seq<Record>, rank: Ranking)
    requires MatchAll(rows, fileHeaders, recs, rank).Err?
    ensures MatchAll(rows, fileHeaders, recs + more, rank) == MatchAll(rows, fileHeaders, recs, rank)
    decreases |more|
  {
    if |more| > 0 {
      var init := more[..|more| - 1];
      assert (recs + more)[..|recs + more| - 1] == recs + init;
      MatchAllAborts(rows, fileHeaders, recs, init, rank);
    } else {
      assert recs + more == recs;
    }
  }

  /**
   Reading record `i` of a file: the header record (`i == 0`) leaves the table
   as it is, any later record is one more `Step`.
   */
  lemma MatchPrefixStep(rows: seq<Row>, fileHeaders: seq<string>, records: seq<Record>, i: nat, rank: Ranking, done: seq<Row>)
    requires i < |records|
    requires MatchAll(rows, fileHeaders, DataRecords(records[..i]), rank) == Ok(done)
    ensures MatchAll(rows, fileHeaders, DataRecords(records[..i + 1]), rank) ==
      if i == 0 then Ok(done) else Step(done, fileHeaders, records[i], rank(records[i]))
  {
    if i == 0 {
      assert DataRecords(records[..1]) == [];
    } else {
      var prior := DataRecords(records[..i]);
      assert DataRecords(records[..i + 1]) == prior + [records[i]];
      MatchAllSnoc(rows, fileHeaders, prior, records[i], rank, done);
    }
  }

  /** A failure at record `i` is the outcome of the whole file. */
  lemma MatchPrefixAborts(rows: seq<Row>, fileHeaders: seq<string>, records: seq<Record>, i: nat, rank: Ranking)
    requires i < |records|
    requires MatchAll(rows, fileHeaders, DataRecords(records[..i + 1]), rank).Err?
    ensures MatchAll(rows, fileHeaders, DataRecords(records), rank) == MatchAll(rows, fileHeaders, DataRecords(records[..i + 1]), rank)
  {
    assert records == records[..i + 1] + records[i + 1..];
    assert DataRecords(records) == DataRecords(records[..i + 1]) + records[i + 1..];
    MatchAllAborts(rows, fileHeaders, DataRecords(records[..i + 1]), records[i + 1..], rank);
  }

  /** A whole file keeps every row's column set when its columns are already present. */
  lemma {:induction false} MatchAllUniform(rows: seq<Row>, fileHeaders: seq<string>, recs: seq<Record>, rank: Ranking, cols: set<string>)
    requires Uniform(rows, cols)
    requires forall c :: c in fileHeaders ==> c in cols
    requires MatchAll(rows, fileHeaders, recs, rank).Ok?
    ensures Uniform(MatchAll(rows, fileHeaders, recs, rank).value, cols)
    decreases |recs|
  {
    if |recs| > 0 {
      MatchAllUniform(rows, fileHeaders, recs[..|recs| - 1], rank, cols);
    }
  }

  /** The ranking has at least one hit for every record. */
  ghost predicate EveryRecordHits(rank: Ranking, recs: seq<Record>)
  {
    forall j :: 0 <= j < |recs| ==> |rank(recs[j])| > 0
  }

  /**
   When every id the engine returns is a row position, a file merges without
   error exactly when the engine finds a hit for each of its records.
   */
  lemma {:induction false} MatchAllOkIff(rows: seq<Row>, fileHeaders: seq<string>, recs: seq<Record>, rank: Ranking)
    requires ValidRanking(rank, |rows|)
    ensures MatchAll(rows, fileHeaders, recs, rank).Ok? <==> EveryRecordHits(rank, recs)
    decreases |recs|
  {
    if |recs| > 0 {
      var init := recs[..|recs| - 1];
      MatchAllOkIff(rows, fileHeaders, init, rank);
      assert forall j :: 0 <= j < |init| ==> init[j] == recs[j];
    }
  }

  /** When every id the engine returns is a row position, a file never fails with `MissingRow`. */
  lemma {:induction false} MatchAllNoMissingRow(rows: seq<Row>, fileHeaders: seq<string>, recs: seq<Record>, rank: Ranking)
    requires ValidRanking(rank, |rows|)
    ensures !(MatchAll(rows, fileHeaders, recs, rank).Err? && MatchAll(rows, fileHeaders, recs, rank).error.MissingRow?)
    decreases |recs|
  {
    if |recs| > 0 {
      MatchAllNoMissingRow(rows, fileHeaders, recs[..|recs| - 1], rank);
    }
  }

  /** A file never fails with `InsufficientSources`. */
  lemma {:induction false} MatchAllErrors(rows: seq<Row>, fileHeaders: seq<string>, recs: seq<Record>, rank: Ranking)
    ensures MatchAll(rows, fileHeaders, recs, rank) != Err(InsufficientSources)
    decreases |recs|
  {
    if |recs| > 0 {
      MatchAllErrors(rows, fileHeaders, recs[..|recs| - 1], rank);
    }
  }

  /** A row that no record of the file is matched to comes out unchanged. */
  lemma {:induction false} MatchAllUntouched(rows: seq<Row>, fileHeaders: seq<string>, recs: seq<Record>, rank: Ranking, i: nat)
    requires i < |rows|
    requires forall j :: 0 <= j < |recs| ==> !Targets(rank(recs[j]), i)
    requires MatchAll(rows, fileHeaders, recs, rank).Ok?
    ensures MatchAll(rows, fileHeaders, recs, rank).value[i] == rows[i]
    decreases |recs|
  {
    if |recs| > 0 {
      MatchAllUntouched(rows, fileHeaders, recs[..|recs| - 1], rank, i);
    }
  }

  /**
   When several records are matched to the same row, the last one wins: after
   the file, the row's columns of this file hold what record `j` wrote, if no
   later record is matched to that row.
   */
  lemma {:induction false} LastWriterWins(rows: seq<Row>, fileHeaders: seq<string>, recs: seq<Record>, rank: Ranking, j: nat, id: nat)
    requires j < |recs| && id < |rows|
    requires Targets(rank(recs[j]), id)
    requires forall k :: j < k < |recs| ==> !Targets(rank(recs[k]), id)
    requires MatchAll(rows, fileHeaders, recs, rank).Ok?
    ensures forall c :: c in fileHeaders ==>
      && c in MatchAll(rows, fileHeaders, recs, rank).value[id]
      && MatchAll(rows, fileHeaders, recs, rank).value[id][c] == Patch(fileHeaders, recs[j], rank(recs[j])[0].certainty)[c]
    decreases |recs|
  {
    var init, last := recs[..|recs| - 1], recs[|recs| - 1];
    var prev := MatchAll(rows, fileHeaders, init, rank);
    assert prev.Ok?;
    var r := Step(prev.value, fileHeaders, last, rank(last));
    assert MatchAll(rows, fileHeaders, recs, rank) == r;
    StepFrame(prev.value, fileHeaders, last, rank(last), rank(last)[0].id);
    if j < |recs| - 1 {
      assert forall k :: j < k < |init| ==> init[k] == recs[k];
      assert init[j] == recs[j];
      LastWriterWins(rows, fileHeaders, init, rank, j, id);
      assert r.value[id] == prev.value[id];
    }
  }

  /** The columns a secondary file writes: its `fileHeaders`. */
  function ColumnsOf(pascal: string -> string, b: Source): seq<string>
  {
    FileHeaders(pascal, b.name, b.headers)
  }

  /** Merging secondary file `b` into the table. */
  function MatchSource(rows: seq<Row>, pascal: string -> string, b: Source, lookup: Lookup): (r: Result<seq<Row>>)
    ensures r.Ok? ==> |r.value| == |rows|
  {
    MatchAll(rows, ColumnsOf(pascal, b), DataRecords(b.records), RankingOf(b, lookup))
  }

  /** The main loop over the secondary files, in file order; the first failure aborts. */
  function MatchFiles(rows: seq<Row>, pascal: string -> string, bs: seq<Source>, lookup: Lookup): (r: Result<seq<Row>>)
    ensures r.Ok? ==> |r.value| == |rows|
    decreases |bs|
  {
    if |bs| == 0 then Ok(rows)
    else
      match MatchFiles(rows, pascal, bs[..|bs| - 1], lookup)
      case Err(e) => Err(e)
      case Ok(done) => MatchSource(done, pascal, bs[|bs| - 1], lookup)
  }

  /** Merging one more file continues from the table the earlier files produced. */
  lemma MatchFilesSnoc(rows: seq<Row>, pascal: string -> string, bs: seq<Source>, b: Source, lookup: Lookup, done: seq<Row>)
    requires MatchFiles(rows, pascal, bs, lookup) == Ok(done)
    ensures MatchFiles(rows, pascal, bs + [b], lookup) == MatchSource(done, pascal, b, lookup)
  {
    assert (bs + [b])[..|bs|] == bs;
  }

  /** Once a file fails, the run fails with that error whatever files follow. */
  lemma {:induction false} MatchFilesAborts(rows: seq<Row>, pascal: string -> string, bs: seq<Source>, more: seq<Source>, lookup: Lookup)
    requires MatchFiles(rows, pascal, bs, lookup).Err?
    ensures MatchFiles(rows, pascal, bs + more, lookup) == MatchFiles(rows, pascal, bs, lookup)
    decreases |more|
  {
    if |more| > 0 {
      var init := more[..|more| - 1];
      assert (bs + more)[..|bs + more| - 1] == bs + init;
      MatchFilesAborts(rows, pascal, bs, init, lookup);
    } else {
      assert bs + more == bs;
    }
  }

  /** Merging secondary file `i` (files numbered from the primary's 0) continues from the earlier files' table. */
  lemma MatchFilesPrefixStep(rows: seq<Row>, pascal: string -> string, files: seq<Source>, i: nat, lookup: Lookup, done: seq<Row>)
    requires 1 <= i < |files|
    requires MatchFiles(rows, pascal, files[1..i], lookup) == Ok(done)
    ensures MatchFiles(rows, pascal, files[1..i + 1], lookup) == MatchSource(done, pascal, files[i], lookup)
  {
    assert files[1..i + 1] == files[1..i] + [files[i]];
    MatchFilesSnoc(rows, pascal, files[1..i], files[i], lookup, done);
  }

  /** A failure in secondary file `i` is the outcome of the whole run. */
  lemma MatchFilesPrefixAborts(rows: seq<Row>, pascal: string -> string, files: seq<Source>, i: nat, lookup: Lookup)
    requires 1 <= i < |files|
    requires MatchFiles(rows, pascal, files[1..i + 1], lookup).Err?
    ensures MatchFiles(rows, pascal, files[1..], lookup) == MatchFiles(rows, pascal, files[1..i + 1], lookup)
  {
    assert files[1..] == files[1..i + 1] + files[i + 1..];
    MatchFilesAborts(rows, pascal, files[1..i + 1], files[i + 1..], lookup);
  }

  /** Every file's columns already present: the schema stays uniform through all files. */
  lemma {:induction false} MatchFilesUniform(rows: seq<Row>, pascal: string -> string, bs: seq<Source>, lookup: Lookup, cols: set<string>)
    requires Uniform(rows, cols)
    requires forall j, c :: 0 <= j < |bs| && c in ColumnsOf(pascal, bs[j]) ==> c in cols
    requires MatchFiles(rows, pascal, bs, lookup).Ok?
    ensures Uniform(MatchFiles(rows, pascal, bs, lookup).value, cols)
    decreases |bs|
  {
    if |bs| > 0 {
      var init, b := bs[..|bs| - 1], bs[|bs| - 1];
      assert forall j :: 0 <= j < |init| ==> init[j] == bs[j];
      MatchFilesUniform(rows, pascal, init, lookup, cols);
      var done := MatchFiles(rows, pascal, init, lookup).value;
      MatchAllUniform(done, ColumnsOf(pascal, b), DataRecords(b.records), RankingOf(b, lookup), cols);
    }
  }

  /** Every data record of every file has at least one hit. */
  ghost predicate EveryFileHits(bs: seq<Source>, lookup: Lookup)
  {
    forall j :: 0 <= j < |bs| ==> EveryRecordHits(RankingOf(bs[j], lookup), DataRecords(bs[j].records))
  }

  lemma EveryFileHitsSnoc(bs: seq<Source>, b: Source, lookup: Lookup)
    ensures EveryFileHits(bs + [b], lookup) <==>
      EveryFileHits(bs, lookup) && EveryRecordHits(RankingOf(b, lookup), DataRecords(b.records))
  {
    assert forall j :: 0 <= j < |bs| ==> (bs + [b])[j] == bs[j];
    assert (bs + [b])[|bs|] == b;
  }

  /** One file merges without error exactly when each of its data records gets a hit. */
  lemma MatchSourceOkIff(rows: seq<Row>, pascal: string -> string, b: Source, lookup: Lookup)
    requires ValidLookup(lookup, |rows|)
    ensures MatchSource(rows, pascal, b, lookup).Ok? <==> EveryRecordHits(RankingOf(b, lookup), DataRecords(b.records))
  {
    ValidLookupRanking(lookup, b, |rows|);
    MatchAllOkIff(rows, ColumnsOf(pascal, b), DataRecords(b.records), RankingOf(b, lookup));
  }

  /** With ids that are row positions, all files merge exactly when every data record of every file gets a hit. */
  lemma {:induction false} MatchFilesOkIff(rows: seq<Row>, pascal: string -> string, bs: seq<Source>, lookup: Lookup)
    requires ValidLookup(lookup, |rows|)
    ensures MatchFiles(rows, pascal, bs, lookup).Ok? <==> EveryFileHits(bs, lookup)
    decreases |bs|
  {
    if |bs| > 0 {
      var init, b := bs[..|bs| - 1], bs[|bs| - 1];
      MatchFilesOkIff(rows, pascal, init, lookup);
      EveryFileHitsSnoc(init, b, lookup);
      assert bs == init + [b];
      var r := MatchFiles(rows, pascal, init, lookup);
      if r.Ok? {
        MatchSourceOkIff(r.value, pascal, b, lookup);
      }
    }
  }

  /** The secondary files never fail with `InsufficientSources`. */
  lemma {:induction false} MatchFilesErrors(rows: seq<Row>, pascal: string -> string, bs: seq<Source>, lookup: Lookup)
    ensures MatchFiles(rows, pascal, bs, lookup) != Err(InsufficientSources)
    decreases |bs|
  {
    if |bs| > 0 {
      var init, b := bs[..|bs| - 1], bs[|bs| - 1];
      MatchFilesErrors(rows, pascal, init, lookup);
      var r := MatchFiles(rows, pascal, init, lookup);
      if r.Ok? {
        MatchAllErrors(r.value, ColumnsOf(pascal, b), DataRecords(b.records), RankingOf(b, lookup));
      }
    }
  }

  /** When every id the lookup returns is a row position, no file fails with `MissingRow`. */
  lemma {:induction false} MatchFilesNoMissingRow(rows: seq<Row>, pascal: string -> string, bs: seq<Source>, lookup: Lookup)
    requires ValidLookup(lookup, |rows|)
    ensures !(MatchFiles(rows, pascal, bs, lookup).Err? && MatchFiles(rows, pascal, bs, lookup).error.MissingRow?)
    decreases |bs|
  {
    if |bs| > 0 {
      var init, b := bs[..|bs| - 1], bs[|bs| - 1];
      MatchFilesNoMissingRow(rows, pascal, init, lookup);
      var r := MatchFiles(rows, pascal, init, lookup);
      if r.Ok? {
        ValidLookupRanking(lookup, b, |r.value|);
        MatchAllNoMissingRow(r.value, ColumnsOf(pascal, b), DataRecords(b.records), RankingOf(b, lookup));
      }
    }
  }

  /** A row that no record of any file is matched to comes out unchanged. */
  lemma {:induction false} MatchFilesUntouched(rows: seq<Row>, pascal: string -> string, bs: seq<Source>, lookup: Lookup, i: nat)
    requires i < |rows|
    requires forall j, k :: 0 <= j < |bs| && 0 <= k < |DataRecords(bs[j].records)| ==> !Targets(lookup(bs[j], DataRecords(bs[j].records)[k]), i)
    requires MatchFiles(rows, pascal, bs, lookup).Ok?
    ensures MatchFiles(rows, pascal, bs, lookup).value[i] == rows[i]
    decreases |bs|
  {
    if |bs| > 0 {
      var init, b := bs[..|bs| - 1], bs[|bs| - 1];
      assert forall j :: 0 <= j < |init| ==> init[j] == bs[j];
      MatchFilesUntouched(rows, pascal, init, lookup, i);
      var done := MatchFiles(rows, pascal, init, lookup).value;
      var recs, rank := DataRecords(b.records), RankingOf(b, lookup);
      assert forall k :: 0 <= k < |recs| ==> rank(recs[k]) == lookup(b, recs[k]);
      MatchAllUntouched(done, ColumnsOf(pascal, b), recs, rank, i);
    }
  }

  /** Files without data records change nothing. */
  lemma {:induction false} MatchFilesNoRecords(rows: seq<Row>, pascal: string -> string, bs: seq<Source>, lookup: Lookup)
    requires forall j :: 0 <= j < |bs| ==> |DataRecords(bs[j].records)| == 0
    ensures MatchFiles(rows, pascal, bs, lookup) == Ok(rows)
    decreases |bs|
  {
    if |bs| > 0 {
      var init := bs[..|bs| - 1];
      assert forall j :: 0 <= j < |init| ==> init[j] == bs[j];
      MatchFilesNoRecords(rows, pascal, init, lookup);
    }
  }

  /** The primary table after loading and seeding, before any secondary file is merged. */
  function SeededPrimary(files: seq<Source>, pascal: string -> string): (rows: seq<Row>)
    requires |files| >= 1
    ensures |rows| == |DataRecords(files[0].records)|
    ensures forall i :: 0 <= i < |rows| ==>
      rows[i].Keys == (set h | h in files[0].headers) + set c | c in AddHeaders(pascal, files[1..])
  {
    Seeded(LoadedRows(files[0].headers, files[0].records), AddHeaders(pascal, files[1..]))
  }

  /** The whole run: check the file count, load and seed the primary table, merge each secondary file. */
  function Merged(files: seq<Source>, pascal: string -> string, search: Oracle): (r: Result<seq<Row>>)
    ensures |files| < 2 ==> r == Err(InsufficientSources)
    ensures r.Ok? ==> |files| >= 2 && |r.value| == |DataRecords(files[0].records)|
  {
    if |files| < 2 then Err(InsufficientSources)
    else MatchFiles(SeededPrimary(files, pascal), pascal, files[1..], EngineLookup(search))
  }

  /** The run fails for lack of files exactly when fewer than two are given. */
  lemma MergedInsufficientIff(files: seq<Source>, pascal: string -> string, search: Oracle)
    ensures Merged(files, pascal, search) == Err(InsufficientSources) <==> |files| < 2
  {
    if |files| >= 2 {
      MatchFilesErrors(SeededPrimary(files, pascal), pascal, files[1..], EngineLookup(search));
    }
  }

  /**
   The output has one row per data record of the primary file, and every row
   has the same columns: the primary headers plus every secondary column.
   */
  lemma MergedShape(files: seq<Source>, pascal: string -> string, search: Oracle)
    requires Merged(files, pascal, search).Ok?
    ensures |Merged(files, pascal, search).value| == |DataRecords(files[0].records)|
    ensures Uniform(Merged(files, pascal, search).value,
                    (set h | h in files[0].headers) + set c | c in AddHeaders(pascal, files[1..]))
  {
    var p, bs := files[0], files[1..];
    var cols := (set h | h in p.headers) + set c | c in AddHeaders(pascal, bs);
    SeededUniform(p.headers, p.records, AddHeaders(pascal, bs));
    MatchFilesUniform(SeededPrimary(files, pascal), pascal, bs, EngineLookup(search), cols);
  }

  /**
   When the engine answers only with ids of the documents the primary table
   gave it, the run succeeds exactly when there are at least two files and
   every data record of every secondary file gets a hit.
   */
  lemma MergedOkIff(files: seq<Source>, pascal: string -> string, search: Oracle)
    requires |files| >= 1
    requires ReturnsAddedIds(search, Documents(LoadedRows(files[0].headers, files[0].records), files[0].selected))
    ensures Merged(files, pascal, search).Ok? <==>
      && |files| >= 2
      && forall j, k :: 1 <= j < |files| && 0 <= k < |DataRecords(files[j].records)| ==> |Hits(files[j], DataRecords(files[j].records)[k], search)| > 0
  {
    AddedIdsAreRows(search, LoadedRows(files[0].headers, files[0].records), files[0].selected);
    if |files| >= 2 {
      var bs := files[1..];
      var lookup := EngineLookup(search);
      ValidIdsLookup(search, |SeededPrimary(files, pascal)|);
      MatchFilesOkIff(SeededPrimary(files, pascal), pascal, bs, lookup);
      forall j | 1 <= j < |files|
        ensures EveryRecordHits(RankingOf(files[j], lookup), DataRecords(files[j].records)) <==>
          forall k :: 0 <= k < |DataRecords(files[j].records)| ==> |Hits(files[j], DataRecords(files[j].records)[k], search)| > 0
      {
        var rank := RankingOf(files[j], lookup);
        assert forall v :: rank(v) == Hits(files[j], v, search);
      }
      assert forall j :: 1 <= j < |files| ==> files[j] == bs[j - 1];
    }
  }

  /**
   When the engine answers only with ids of the documents the primary table
   gave it, the run never fails with `MissingRow`: every hit names a row.
   */
  lemma MergedNoMissingRow(files: seq<Source>, pascal: string -> string, search: Oracle)
    requires |files| >= 1
    requires ReturnsAddedIds(search, Documents(LoadedRows(files[0].headers, files[0].records), files[0].selected))
    ensures !(Merged(files, pascal, search).Err? && Merged(files, pascal, search).error.MissingRow?)
  {
    AddedIdsAreRows(search, LoadedRows(files[0].headers, files[0].records), files[0].selected);
    if |files| >= 2 {
      ValidIdsLookup(search, |SeededPrimary(files, pascal)|);
      MatchFilesNoMissingRow(SeededPrimary(files, pascal), pascal, files[1..], EngineLookup(search));
    }
  }

  /**
   A primary row that no secondary record is matched to is emitted with its
   own values and `undefined` in every secondary column.
   */
  lemma MergedUnmatchedRow(files: seq<Source>, pascal: string -> string, search: Oracle, i: nat)
    requires Merged(files, pascal, search).Ok?
    requires i < |DataRecords(files[0].records)|
    requires forall j, k :: 1 <= j < |files| && 0 <= k < |DataRecords(files[j].records)| ==> !Targets(Hits(files[j], DataRecords(files[j].records)[k], search), i)
    ensures Merged(files, pascal, search).value[i] == RowOf(files[0].headers, files[0].records[i + 1]) + Placeholders(AddHeaders(pascal, files[1..]))
  {
    var bs := files[1..];
    assert forall j :: 0 <= j < |bs| ==> bs[j] == files[j + 1];
    var lookup := EngineLookup(search);
    assert forall b, v :: lookup(b, v) == Hits(b, v, search);
    MatchFilesUntouched(SeededPrimary(files, pascal), pascal, bs, lookup, i);
  }

  /** With no data records in any secondary file, the output is the seeded primary table. */
  lemma MergedEmptySecondaries(files: seq<Source>, pascal: string -> string, search: Oracle)
    requires |files| >= 2
    requires forall j :: 1 <= j < |files| ==> |DataRecords(files[j].records)| == 0
    ensures Merged(files, pascal, search) == Ok(SeededPrimary(files, pascal))
  {
    var bs := files[1..];
    assert forall j :: 0 <= j < |bs| ==> bs[j] == files[j + 1];
    MatchFilesNoRecords(SeededPrimary(files, pascal), pascal, bs, EngineLookup(search));
  }
}
