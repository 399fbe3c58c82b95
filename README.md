# listmerge — a Dafny model of the merge accumulator

`listmerge` joins several CSV files into one. The first file is the
*primary* file. Each of its data records becomes a row object in the table
`index`, and its selected fields are filed in a BM25 text-search engine under
the row's position. The table is then seeded: every row gets every column the
secondary files will contribute, each set to `undefined`. Each secondary file
is read in order. For each data record, the program builds a query from the
record's selected fields and asks the engine for its best hit. It then
writes the record's values and the hit's certainty into the primary row that
hit names, under columns called `<PascalFileName>__<header>` and
`<PascalFileName>__match_certainty`.

The project models this accumulator:

- `jsobjects.dfy` (module `JsObjects`): the JavaScript object operations the
  merge relies on.
  - Rows are maps from column name to cell (text, `undefined` or a
    certainty).
  - lodash `zipObject`: the last duplicate key wins, missing values are
    `undefined`, and surplus values are dropped.
  - lodash `pick`, `Object.values` of a picked object, and
    `Array.prototype.join(' ')`.
- `schema.dfy` (module `Schema`): `makeColName`, a file's `fileHeaders`, and
  the concatenated `addHeaders` of the secondary files.
- `engine.dfy` (module `Engine`): the search engine as a class that logs its
  field weights and documents. The ranked search itself is an oracle.
- `linkage.dfy` (module `Linkage`): the accumulator as functions on values,
  with the lemmas about them:
  - the loaded table and the engine's documents;
  - the seeded table;
  - the query;
  - the write-back of one record (`Step`), of one file (`MatchAll`), of all
    secondary files (`MatchFiles`), and the whole run (`Merged`).
- `listmerge.dfy` (module `ListMerge`): the program as it runs.
  - The class `PrimaryFile` updates its `index` in place, in
    `LoadSearchEngine`, `LoadRecord`, `SeedPlaceholders`, `MatchRecord` and
    `MatchFile`.
  - The method `Run` is the main routine after the prompts.
  - Each method is proved to compute the corresponding `Linkage` function.

Two inputs are parameters, not definitions:
- the casing transform `Case.pascal` (`pascal: string -> string`);
- the engine's `search(query, 1)` (`search: string -> seq<Hit>`, hits ranked
  best first, possibly none).

The write-back proofs do not see the query text: they take the engine's
answer for each record as a ranking. `EngineLookup` connects that ranking to
the query built from the record.

Errors are values of `Linkage.Error`:
- `InsufficientSources`: fewer than two files (`index.js:141-143`).
- `NoMatch`: the engine returns no hit, and destructuring its first hit
  throws (`index.js:111`). The program does not skip unmatched records: one
  secondary record without a hit aborts the whole merge, and the model does
  the same.
- `MissingRow`: the hit names no row of `index`, so `Object.assign` receives
  `undefined` (`index.js:113-116`). `MergedNoMissingRow` proves that this
  cannot happen when the engine only returns ids it was given:
  `AddedIdsAreRows` and `ValidIdsLookup` show that every hit then names a row.

## Model

| member | source | states |
|---|---|---|
| Schema.MakeColName | index.js:19-21 | the column name is the cased file name, then `__`, then the header, and it splits back into exactly those parts |
| Schema.ColNameInjective | index.js:19-21 | within one file, different headers give different column names |
| Schema.ColNamesDisjoint | index.js:19-21 | two files whose cased names differ and contain no `_` never share a column name |
| Schema.FileHeaders | index.js:46-50 | `fileHeaders` has one entry per header plus one; entry `i` is the column of header `i`, and the last is the `match_certainty` column |
| Schema.FileHeadersDistinct | index.js:47-49 | with distinct headers, none named `match_certainty`, a file's columns are distinct |
| Schema.FileHeadersDisjoint | index.js:47-49 | two files with different cased names (no `_`) contribute disjoint column sets |
| Schema.AddHeaders | index.js:184 | `addHeaders` holds exactly the columns of the secondary files |
| JsObjects.ZipObject | index.js:76 | the object's keys are exactly the given keys, and every value is a supplied value or `undefined` |
| JsObjects.ZipObjectAt | index.js:76 | the value under `keys[i]` is `vals[i]` (`undefined` past the end) when no later key repeats it, so the last duplicate wins |
| JsObjects.ZipObjectDistinct | index.js:76 | with distinct keys, each key holds the value at its own position |
| JsObjects.Pick | index.js:78 | `pick` keeps exactly the selected keys the object has, with their values |
| JsObjects.PickedKeys | index.js:104-108 | the picked object's keys in insertion order are distinct and are exactly the selected keys present |
| JsObjects.PickedKeysAll | index.js:104-108 | a distinct selection whose keys are all present is enumerated in selection order |
| JsObjects.CellText | index.js:109 | how `join` renders a cell: a text value as itself, `undefined` as the empty string |
| JsObjects.Join | index.js:109 | `join(' ')`: no parts give the empty string; otherwise the result starts with the first part, followed by a single space when more parts follow; `WordsOfJoin` states what it does to words |
| JsObjects.WordsOfJoin | index.js:109 | joining with single spaces neither merges nor splits words: the words of the result are the words of each part, in order |
| Engine.FieldWeights | index.js:57-59 | the engine is weighted on exactly the selected fields, each with weight 1 |
| Engine.SearchEngine.DefineConfig | index.js:57-59 | the configuration replaces the field weights and changes nothing else |
| Engine.SearchEngine.AddDoc | index.js:78 | `addDoc` appends one document with the given fields and id |
| Engine.SearchEngine.constructor | index.js:13 | the engine instance starts with no field weights, no documents and not consolidated |
| Engine.SearchEngine.Consolidate | index.js:82 | `consolidate` marks the collection consolidated; documents and weights are unchanged |
| Linkage.DataRecords | index.js:75 | the first record, the header record, is skipped; record `i + 1` is data record `i` |
| Linkage.RowOf | index.js:76 | `zipObject(headers, values)`: the row has exactly the header columns, each holding one of the record's values or `undefined`; `RowOfAt` says which value |
| Linkage.RowOfAt | index.js:76 | a loaded row has exactly the header columns and maps `headers[j]` to `values[j]`, or `undefined` when the record is shorter |
| Linkage.LoadedRows | index.js:74-78 | `index` has one row per data record, in file order, each the `zipObject` of headers and values |
| Linkage.Documents | index.js:78 | document `i` is filed under id `i` (its row's position) and holds exactly the row's selected fields, with the row's values |
| Linkage.LoadedRowsStep | index.js:74-77 | the header record adds no row; every later record pushes its own row at the end |
| Linkage.AddedIdsAreRows | index.js:77-78 | an engine that only returns ids it was given only returns positions of `index` |
| Linkage.Placeholders | index.js:185 | `addColumns` has exactly the secondary columns, each `undefined` |
| Linkage.Seeded | index.js:186 | seeding keeps the row count, adds every secondary column as `undefined` and keeps every other column |
| Linkage.SeededUniform | index.js:182-186 | loaded rows all have the header columns; after seeding all rows have the headers plus every secondary column |
| Linkage.QueryParts | index.js:104-108 | `Object.values(pick(zipObject(b.headers, values), b.selected))`: at most one part per selected field, each a value of the record or empty; `QueryPartsAt` gives the exact parts |
| Linkage.Query | index.js:104-109 | the query is the parts joined with single spaces; `QueryWords` states that its words are the parts' words in order |
| Linkage.QueryPartsAt | index.js:104-108 | with distinct headers and selection, the query has one part per selected field, in selection order, each the field's value (empty when missing) |
| Linkage.QueryWords | index.js:104-109 | the words of the query are the words of the selected values, in order |
| Linkage.Hits | index.js:111 | `a.engine.search(query, 1)` for the record's query; `ValidIdsLookup` bounds the ids it returns and `MergedOkIff` ties success to it being non-empty |
| Linkage.ValidIdsLookup | index.js:111 | the program's lookup returns only ids the engine returns, whatever query it builds |
| Linkage.Patch | index.js:115 | the written object has exactly the file's columns |
| Linkage.PatchAligned | index.js:115 | when a record is as long as its headers, each value lands in its own column and the certainty in `match_certainty` |
| Linkage.PatchShortRecord | index.js:115 | a record shorter than its headers shifts the certainty into the first missing value's column, and `match_certainty` stays `undefined` |
| Linkage.Step | index.js:111-116 | one record succeeds exactly when there is a hit naming a row; no hit fails with `NoMatch`; the row count is kept |
| Linkage.StepFrame | index.js:113-116 | only the matched row changes; it gains exactly the file's columns with the written values, and its other columns keep their values |
| Linkage.MatchAll | index.js:101-117 | merging a whole file, record by record in file order, keeps the row count |
| Linkage.MatchAllSnoc | index.js:101-117 | each further record continues from the table the earlier records produced |
| Linkage.MatchAllAborts | index.js:111 | once a record fails, the file fails with that error whatever follows |
| Linkage.MatchPrefixStep | index.js:101-102 | reading record `i`: the header record changes nothing, any later record is one more step |
| Linkage.MatchAllUniform | index.js:113-116 | a file whose columns are already present keeps every row's column set |
| Linkage.MatchAllOkIff | index.js:111-116 | when ids are row positions, a file merges exactly when every data record gets a hit |
| Linkage.MatchAllNoMissingRow | index.js:111-116 | when every id the engine returns is a row position, a file never fails with `MissingRow` |
| Linkage.MatchAllErrors | index.js:101-117 | a file never fails with `InsufficientSources` |
| Linkage.MatchAllUntouched | index.js:113-116 | a row no record is matched to comes out unchanged |
| Linkage.LastWriterWins | index.js:113-116 | when several records match one row, the row holds, in the file's columns, what the last of them wrote |
| Linkage.MatchFiles | index.js:188-192 | merging the secondary files in order keeps the row count |
| Linkage.MatchSource | index.js:191 | `matchFile(a, b)` for one secondary file: its data records merged under its own columns, keeping the row count; `MatchSourceOkIff` says when it succeeds |
| Linkage.MatchFilesSnoc | index.js:188-192 | each further secondary file continues from the table the earlier files produced |
| Linkage.MatchFilesAborts | index.js:188-192 | once a file fails, the run fails with that error whatever files follow |
| Linkage.MatchFilesUniform | index.js:188-192 | when every file's columns are present, the schema stays uniform through all files |
| Linkage.MatchSourceOkIff | index.js:191 | with valid ids, one file merges exactly when each of its data records gets a hit |
| Linkage.MatchFilesOkIff | index.js:188-192 | with valid ids, all files merge exactly when every data record of every file gets a hit |
| Linkage.MatchFilesErrors | index.js:188-192 | the secondary files never fail with `InsufficientSources` |
| Linkage.MatchFilesNoMissingRow | index.js:188-192 | when every id the lookup returns is a row position, no file fails with `MissingRow` |
| Linkage.MatchFilesUntouched | index.js:188-192 | a row no record of any file is matched to comes out unchanged |
| Linkage.MatchFilesNoRecords | index.js:188-192 | files without data records change nothing |
| Linkage.SeededPrimary | index.js:180-186 | the primary table after loading and seeding: one row per primary data record, each with the primary headers plus every secondary column |
| Linkage.Merged | index.js:139-192 | the whole run: fewer than two files is `InsufficientSources`, and a successful run has one row per primary data record; `Run` is proved equal to it |
| Linkage.MergedInsufficientIff | index.js:141-143 | the run fails for lack of files exactly when fewer than two are given |
| Linkage.MergedShape | index.js:180-192 | the output has one row per primary data record, and all rows have the primary headers plus every secondary column |
| Linkage.MergedOkIff | index.js:139-192 | when the engine only returns ids it was given, the run succeeds exactly when there are at least two files and every secondary data record gets a hit |
| Linkage.MergedNoMissingRow | index.js:111-116 | when the engine only returns ids it was given, the run never fails with `MissingRow` |
| Linkage.MergedUnmatchedRow | index.js:182-192 | a primary row no record is matched to is emitted as its loaded row, overlaid with `undefined` in every secondary column (which also blanks a primary column of the same name) |
| Linkage.MergedEmptySecondaries | index.js:184-192 | with no secondary data records, the output is the seeded primary table |
| ListMerge.PrimaryFile.constructor | index.js:44-45 | the primary file starts with its headers, its selection and an empty `index` |
| ListMerge.PrimaryFile.LoadSearchEngine | index.js:54-90 | `index` becomes the loaded rows; the engine is weighted on the selection, receives each row's selected fields under the row's position, and is consolidated |
| ListMerge.PrimaryFile.LoadRecord | index.js:76-78 | one data record pushes its row onto `index` and files the row's selected fields with the engine under the row's position; weights and the consolidated flag are unchanged |
| ListMerge.PrimaryFile.SeedPlaceholders | index.js:184-186 | `index` becomes the seeded table |
| ListMerge.PrimaryFile.MatchRecord | index.js:101-117 | one record updates `index` as `Step` does; on failure `index` is unchanged |
| ListMerge.PrimaryFile.MatchFile | index.js:92-124 | a whole secondary file updates `index` as `MatchAll` does, or reports the error that aborts it |
| ListMerge.Run | index.js:139-192 | the run's outcome is `Merged`: the error that aborts it, or the final table |

## Left out

- File I/O, CSV parsing (`csv-parse`, `d3-dsv`, `firstline`) and the CSV output (`csv-stringify`, `index.js:194-209`) are left out. A file is given as its name, its headers and its records; the output is the final table.
- A consistent record length is the CSV parser's job. The model accepts records of any length, and `PatchShortRecord` states what a short record does.
- The interactive prompts (`inquirer`) and command-line parsing (`yargs`) are left out. Each file's selected fields are part of its `Source`.
- Path resolution and the file-existence check (`index.js:25-33`) are left out, because they are file-system I/O.
- Promises, streams and error callbacks are left out; records are handled one at a time, in order.
- The BM25 scoring and the text preparation tasks (lower-casing, removing extra spaces, tokenizing) are not modelled. `search` is an oracle, and certainty is an uninterpreted real.
- The engine's own rejections are left out. For example, `consolidate` refuses a collection that is too small, and `Engine.SearchEngine.AddDoc` does not refuse a document added after `consolidate`.
- Words are split on the space character only (`JsObjects.Words`), to state what `join(' ')` does; this is not the engine's tokenizer.
- `Case.pascal` is a parameter. `ColNamesDisjoint` assumes only that its results differ and contain no underscore.
- The key order of JavaScript objects, which puts integer-like keys first, is not modelled. `PickedKeys` enumerates picked keys in first-occurrence order of the selection.
- Logging (`console.log`) and the process exit path are left out.
- Linkage.MatchAll: on an abort the program has already updated the rows of earlier records of that file in place. The model returns only the error, because no output is written after an abort.
