# ctest_cost_merge in Dafny

`ctest_cost_merge` merges CMake `CTestCostData.txt` files. A cost file holds one
row per test, `test_name count cost`, with fields separated by single spaces and
no header. Fields are taken by position: a row needs at least three, and any
after the third are ignored. The reader is not flexible, so every row of a file
must have as many fields as the file's first row. The rows end where the last occurrence of `---` begins: the file is
cut there, wherever that `---` stands (inside a line or not), and everything
from it on, such as the failed-test list, is ignored. A file without `---` is
read whole. The count is an unsigned integer as the CSV deserializer reads one:
hexadecimal after a leading `0x`, decimal otherwise, an optional `+`, below
2^64. The tool loads a baseline cost file into an insertion-ordered map keyed
by test name. A name repeated in the baseline is fatal. It then folds in the
rows of every update file, freshest wins:

- an unknown name is appended;
- a known name is replaced in place, but only by a row with a strictly greater
  run count.

Finally it writes the map's rows in map order, followed by `---`.

For example, take a baseline `A 5 1.0`, `B 3 2.0`, `---`, and two update files:
`A 7 1.5`, `---`; and `B 2 9.9`, `C 1 0.1`, `---`. The output is `A 7 1.5`,
`B 3 2.0`, `C 1 0.1`, `---`: A takes the row with more runs, B keeps its
baseline row, and C is appended (`Reconcile.WorkedExample`).

This project models that core (`src/main.rs`) and proves what it promises.

- `text.dfy`: string helpers the format needs.
  - `LastIndexOf` is Rust's `str::rfind`.
  - `Split`/`Join` are the CSV reader's and writer's field and line splitting.
  - `Decimal`/`DigitsValue` handle numerals in bases up to 16.
- `cost_file.dfy`: the cost file format.
  - `CostRecord` is the row.
  - `StripTrailer` cuts at the last `---`.
  - `Lines` splits the data part into lines.
  - `ParseCount`/`ParseRow`/`ReadRow`/`ParseRows`/`ReadRows`/`ReadRecordFile` deserialize the rows; `ReadRow` rejects a row whose width differs from the first row's.
  - `Serialize` and the method `WriteCostFile` write them back.
  - `SerializeRoundTrip` is the round-trip proof.
- `record_map.dfy`: the `IndexMap<String, CostRecord>`.
  - `Table` is its value: the key order plus the entries.
  - `RecordMap` is the mutable map. `Insert` updates the fields in place; `Get` reads them.
- `reconcile.dfy`: the merge itself.
  - `Merge` is the pure specification on file contents: load the baseline, fold
    the updates, write.
  - `MergeCostUpdates` is the step-by-step procedure on a `RecordMap`, with the
    same loops as the source. Its contract is `result == Merge(original, updates)`.
  - The lemmas state what `Merge` guarantees: when it fails and with which error,
    key order, the freshest record per name, and that the output reloads to itself.

File contents are parameters: `original` is the baseline's text, and `updates`
holds the texts of the update files in command-line order. The written file is
returned as a string. Errors are a `MergeError`:

- `MalformedBaseline`: a baseline row does not deserialize.
- `DuplicateTest(name)`: the baseline names a test twice.
- `MalformedUpdate(i)`: update file `i` does not deserialize.

## Model

| member | source | states |
|---|---|---|
| Text.LastIndexOfSpec | src/main.rs:48-52 | `rfind("---")` finds something exactly when `---` occurs, and no occurrence starts after the one it returns |
| Text.SplitJoin | src/main.rs:101-106 | fields joined with the delimiter split back into exactly those fields when no field contains a separator |
| Text.JoinSplit | src/main.rs:53-56 | joining the pieces of a split gives the line back |
| Text.Decimal | src/main.rs:106 | a count is written as non-empty decimal digits without a leading zero, and those digits denote the count |
| CostFile.StripTrailerSpec | src/main.rs:48-52 | the data part is a prefix of the content: all of it when there is no `---`, otherwise exactly what precedes the last `---` |
| CostFile.LinesShape | src/main.rs:53-56 | every line the reader sees is non-empty and has no terminator in it |
| CostFile.LinesAtBreak | src/main.rs:53-56 | a line terminator separates lines: the lines of `a`, terminator, `b` are the lines of `a` followed by the lines of `b` |
| CostFile.LinesOfLine | src/main.rs:53-56 | text without a terminator is exactly one line, or none when it is empty, so blank lines are skipped |
| CostFile.ParseUnsigned | src/main.rs:28 | an unsigned integer that parses lies below 2^64 |
| CostFile.ParseCount | src/main.rs:28 | a parsed count fits a 64-bit `usize` |
| CostFile.ParseCountSpec | src/main.rs:28 | a field parses to `n` exactly when it is a prefix (none or `+` for decimal, `0x` or `0x+` for hexadecimal) followed by at least one digit of that radix whose value is `n`, and `n` is below 2^64; a bare `+` or `0x` does not parse |
| CostFile.ParseRow | src/main.rs:57-59 | a parsed row carries a count below 2^64 |
| CostFile.ParseRowSpec | src/main.rs:57-59 | a line deserializes to a record exactly when the line is that record's name, a spelling of its count and its cost, optionally followed by further fields, all joined by single spaces with no space inside any field; the further fields are ignored |
| CostFile.ParseRowIgnoresExtra | src/main.rs:57-59 | a plain record followed by any number of further space-free fields has that many more fields and still deserializes to the same record |
| CostFile.ParseRows | src/main.rs:57-60 | a successful parse yields one record per line |
| CostFile.ReadRows | src/main.rs:53-60 | lines that read yield one record per line |
| CostFile.ReadRowsSpec | src/main.rs:53-60 | the lines read exactly when every line has as many fields as the first and deserializes on its own; then record `i` is line `i` deserialized |
| CostFile.ParseRowsSpec | src/main.rs:57-60 | deserializing against a fixed row width is all or nothing: the rows parse exactly when every line has that many fields and deserializes, and then record `i` is line `i` deserialized |
| CostFile.ReadRecordFile | src/main.rs:45-62 | a file that reads yields one record per line of its data part |
| CostFile.ReadRecordsPlain | src/main.rs:45-62 | every record read from a file has fields free of spaces and line breaks, and a count below 2^64 |
| CostFile.Serialize | src/main.rs:101-114 | the `---` written last is the last one in the file, so cutting at it gives back exactly the written rows |
| CostFile.WriteCostFile | src/main.rs:101-114 | the output is the rows, one formatted line each in map order, followed by a bare `---` |
| CostFile.ParseCountDecimal | src/main.rs:106 | a count written in decimal parses back to the same count |
| CostFile.ParseRowFormatLine | src/main.rs:106 | a plain record written as a line has exactly three fields and parses back to the same record |
| CostFile.LinesOfFormatRows | src/main.rs:105-107 | the lines of the written rows are exactly the formatted records, one per row |
| CostFile.SerializeRoundTrip | src/main.rs:101-114 | a written cost file reads back as exactly the records that were written |
| RecordMaps.InsertTable | src/main.rs:85 | after `insert` the name maps to the new record, and the existing keys keep their order at the front |
| RecordMaps.InsertTableValid | src/main.rs:85 | inserting keeps the keys distinct, in step with the entries, and each record under its own name |
| RecordMaps.TableRowsSpec | src/main.rs:105-107 | iterating the map yields one record per key, in key order, and the names of the records are the keys |
| RecordMaps.TableRowsInsertNew | src/main.rs:97 | inserting a new name adds its record as the last row and leaves the earlier rows as they were |
| RecordMaps.TableRowsReplace | src/main.rs:94 | inserting under a present name replaces that name's row in place and leaves every other row as it was |
| RecordMaps.RecordMap.constructor | src/main.rs:77 | a new map is empty and well formed |
| RecordMaps.RecordMap.Get | src/main.rs:92 | `get` finds a record exactly when the name is a key, and the record it finds carries that name |
| RecordMaps.RecordMap.Insert | src/main.rs:85 | `insert` returns the record previously stored under the name; a present name keeps its position and a new name goes last |
| RecordMaps.RecordMap.Records | src/main.rs:105 | `into_iter` yields one record per key, record `i` being the entry stored under key `i`, so the names are the keys in insertion order |
| Reconcile.MergeRecord | src/main.rs:91-98 | after merging a record its name is present with at least its count, and the existing keys keep their order at the front |
| Reconcile.MergeRecordSpec | src/main.rs:91-98 | on the rows: a new name is appended; at the row with the same name, a strictly greater count replaces that row in place and an equal or lower count changes nothing; every other entry keeps its presence and its record |
| Reconcile.MergeAll | src/main.rs:88-100 | folding records never reorders or drops existing keys |
| Reconcile.MergeAllValid | src/main.rs:88-100 | folding records keeps the keys unique and each record under its own name |
| Reconcile.MergeAllAppend | src/main.rs:88-91 | folding update files one after another is folding their records in sequence |
| Reconcile.FirstOccurrencesSpec | src/main.rs:92-97 | the names in first-seen order are distinct and are exactly the names seen |
| Reconcile.MergeAllKeys | src/main.rs:91-98 | the key order after a fold is the names in the order they were first seen |
| Reconcile.MergeAllFreshest | src/main.rs:91-98 | after a fold, the keys are exactly the names seen, and each is stored with the first record that reaches the greatest count seen for that name |
| Reconcile.MergeAllRows | src/main.rs:88-107 | the rows after a fold: names in first-seen order, each row the freshest record for its name |
| Reconcile.MergeAllReordered | src/main.rs:88-100 | when no two records of one name share a count, any reordering of the records gives the same entries: which record each name keeps does not depend on arrival order |
| Reconcile.ArrivalOrderShows | src/main.rs:88-107 | the key order does depend on arrival order: two new names in opposite update orders produce different output files |
| Reconcile.ParseEachRows | src/main.rs:78-84 | parsing the baseline row by row and parsing the whole file agree on success and on the records |
| Reconcile.LoadRows | src/main.rs:78-87 | a successful load keeps the existing keys at the front and adds one key per row; a failed load never reports an update file |
| Reconcile.LoadRowsOk | src/main.rs:78-87 | loading the baseline succeeds exactly when every row parses and no name repeats |
| Reconcile.LoadRowsValue | src/main.rs:78-87 | a loaded baseline's keys are its names in row order, and the map is the fold of its rows |
| Reconcile.LoadRowsDuplicate | src/main.rs:85-86 | rows that all parse but repeat a name fail with `DuplicateTest` |
| Reconcile.LoadRowsValid | src/main.rs:85-86 | the loaded map is well formed |
| Reconcile.Baseline | src/main.rs:65-87 | a loaded baseline has one key per line of its data part; the only baseline errors are a malformed row and a repeated name |
| Reconcile.BaselineSpec | src/main.rs:65-87 | the baseline file loads exactly when it deserializes with no repeated name; the map then holds its rows in file order; a parsed baseline with a repeated name fails with `DuplicateTest` |
| Reconcile.MergeUpdates | src/main.rs:88-100 | merging update files keeps the existing keys at the front; the only error is a malformed update whose index lies among the files given |
| Reconcile.MergeUpdatesSpec | src/main.rs:88-100 | the update files merge exactly when all deserialize, giving the fold of all their records in order |
| Reconcile.MergeUpdatesFailure | src/main.rs:88-90 | the reported update error names the first file that does not deserialize |
| Reconcile.Merge | src/main.rs:64-116 | a successful merge's output ends with `---`, and a reported update index is that of an update file given |
| Reconcile.MergeSucceeds | src/main.rs:64-116 | a merge succeeds exactly when every file deserializes and the baseline has no repeated name; its output is then the written fold of every record seen, baseline first |
| Reconcile.BaselineDuplicateRejected | src/main.rs:85-86 | a baseline that parses but names a test twice is rejected, whatever the updates |
| Reconcile.UpdateRejected | src/main.rs:88-90 | with a sound baseline, the merge fails with the index of the first update file that does not deserialize |
| Reconcile.MergedReadsBack | src/main.rs:101-114 | the merged file reads back as exactly the merged rows |
| Reconcile.BaselineFirst | src/main.rs:77-98 | the baseline's names keep their order at the head of the output, before any name the updates add |
| Reconcile.ReloadRows | src/main.rs:77-87 | records with distinct names load into a map whose rows are exactly those records, in order |
| Reconcile.ReloadMerged | src/main.rs:64-116 | the merged file is itself a valid baseline: merging it with no updates writes the same file again |
| Reconcile.MergeOfTwoUpdates | src/main.rs:64-116 | written baseline and two written update files merge into the written fold of all their records, baseline first |
| Reconcile.FreshestScenario | src/main.rs:91-98 | baseline `a`, `b` then `a2` fresher than `a`, `b2` no fresher than `b`, and a new `c` fold to the rows `a2`, `b`, `c` |
| Reconcile.FreshestScenarioFiles | src/main.rs:64-116 | the same scenario on written files: the output file is `a2`, `b`, `c` written out |
| Reconcile.WorkedExample | src/main.rs:64-116 | baseline A:5, B:3 with updates A:7 and B:2, C:1 merges to A:7, B:3, C:1 |
| Reconcile.WorkedExampleLines | src/main.rs:106 | the example's records are written as the lines `A 5 1.0`, `B 3 2.0`, `A 7 1.5`, `B 2 9.9` and `C 1 0.1` |
| Reconcile.LoadBaseline | src/main.rs:72-87 | inserting the baseline rows one by one into the map gives the same result or error as loading them |
| Reconcile.MergeRecords | src/main.rs:91-99 | folding one update file's records into the map in place leaves the map equal to the fold |
| Reconcile.MergeCostUpdates | src/main.rs:64-116 | the procedure returns exactly what `Merge` specifies: the output text, or the same error |

## Left out

- Command-line parsing (`src/main.rs:34-43`, `118-122`). The baseline, update files and output are parameters and results of `MergeCostUpdates`.
- File system access. Contents come in as strings, so the "failed to read" errors do not arise. The output is returned as one string. The model does not write it first through the CSV writer and then re-open it to append `---`.
- The `anyhow` context messages. Each failure is a `MergeError` variant.
- `assert!` on a repeated baseline name aborts the process. The model returns `Err(DuplicateTest(name))` instead, and the model's map at that point is irrelevant.
- CSV features beyond what these files use. The reader's quoting, escapes, comments and trimming are not modelled, and neither is the writer's quoting of fields that contain a space, quote or line break. A `"` is an ordinary character in the model. The line terminator written is `\n`. The reader accepts `\n` and `\r` and skips blank lines.
- CostFile.SerializeRoundTrip: holds only for records whose name and cost contain no space, `\r` or `\n` (`Plain`). The real writer would quote such fields, and quoting is not modelled. Every record the reader produces is `Plain` (`ReadRecordsPlain`), so the merged output always satisfies this.
- The cost field is a floating-point number. The source keeps it as text, and so does the model.
- The count is `usize`, modelled as a 64-bit target: a numeral of 2^64 or more does not parse. Other targets are not modelled.
- The count is parsed as the CSV deserializer parses an unsigned integer: `0x` selects base 16 for the rest of the field, which may then start with `+`; otherwise the field is decimal with an optional `+`. Prefixes such as `0X`, `0o` or `0b`, and a leading `-`, do not parse, as in the source.
- `FormatLine`, `FormatRow` and `FormatRows` have no contract of their own. What they produce is stated by `ParseRowFormatLine`, `LinesOfFormatRows`, `WriteCostFile` and `WorkedExampleLines`.
- The integration test `tests/basic.rs` runs the binary on files, so it is not modelled.
