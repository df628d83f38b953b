# s3-parquet-to-postgres, modelled in Dafny

s3-parquet-to-postgres copies parquet files from an S3 bucket into a postgres table.

- A ledger of object keys, the *work lists*, decides which keys are processed in the next batch.
- Each parquet file is read field by field.
- Each row is projected onto the wanted columns and converted to postgres values.
- The rows are streamed into the table with a binary `COPY`.

This project models the sequential logic of that pipeline and proves what it promises.

- **`WorkLists`** (`work_lists.dfy`) models the three line files `todo`, `wip` and `completed` of the work-lists directory.
  - The directory is a class whose files are `Option<string>`; an absent file is `None`.
  - The `WorkLists` struct is a class with the in-memory `wipList`.
  - `New`, `MarkCompleted` and `NextBatch` change them as `WorkLists::new`, `mark_completed` and `next_batch` do.
  - A file is kept as its text, not as a list of lines. That way the model states what `writeln!` writes and what `BufRead::lines` reads back.
  - The line filter is the predicate `IsItem`, shared by every reader.
- **`Text`** (`text.dfy`) holds Rust's whitespace, `trim_start` and `trim`, and `lines()`. `lines()` cuts at '\n' and drops one '\r' before it. It also holds the text produced by writing each item followed by '\n', and `join`/`split`.
- **`Maps`** (`maps.dfy`) models a `HashMap` filled by inserting a sequence of entries in turn, where a later entry for a key wins.
- **`Dates`** (`dates.dfy`) covers:
  - the proleptic Gregorian calendar counted in days from 1970-01-01;
  - the `%Y-%m-%d` rendering, the calendar-date extended format of ISO 8601;
  - a reader for that rendering.
- **`Converters`** (`converters.dfy`) holds:
  - the closed dispatch table keyed by (parquet physical type, converted type, postgres type);
  - the converters as a datatype with `Apply`;
  - `Build`, which picks one converter per column or reports the first unsupported column.
  - A `todo!()` arm of the table is the explicit outcome `Unsupported`.
- **`ParquetOps`** (`parquet_ops.dfy`) models the schema as a tree.
  - `MapFieldsToCols` is the recursive walk that numbers each leaf by its position in its parent.
  - `GetDesiredCols` is the ordered lookup of the desired fields.
- **`Db`** (`db.dfy`) covers:
  - the type map built from the catalogue rows;
  - the alias resolution and column check of `Db::connect`;
  - the `COPY` statement;
  - the row loop of `write_rows`;
  - the display of `MultiLineError`.
  - The postgres client is abstract. The catalogue rows, `PgType::from_oid` (a map), the outcome of opening the COPY, the writer's answer per row and the result of `finish` are inputs.
- **`S3Download`** (`s3_download.dfy`) models `get_dirpath`, the local paths of a downloaded object and its directory, and the key→local path map.
- **`CmdArgs`** (`cmd_args.dfy`) models `config_yaml`.
- **`Wrappers`** (`wrappers.dfy`) holds `Option`, `Result` and `Outcome`.

Two behaviours of the source are stated as they are:

- An item that ends in '\r' is read back without it (`Text.TrailingCrIsLost`). So the work-list round trips are proved for items without a trailing '\r'.
- `next_batch` with a batch size of 0 takes nothing even when `todo` has items. So "the batch is empty only when todo had no items" is proved for a positive batch size.

## Model

| member | source | states |
|---|---|---|
| Text.TrimStartSpec | src/work_lists.rs:33 | `trim_start` removes exactly a leading run of whitespace, and what remains does not start with whitespace |
| Text.TrimEndSpec | src/work_lists.rs:33 | `trim_end` removes exactly a trailing run of whitespace, and what remains does not end with whitespace |
| Text.TrimEmptyIffAllWhitespace | src/work_lists.rs:33 | a line trims to the empty string iff every character of it is whitespace |
| Text.Lines | src/work_lists.rs:29-31 | no line produced by `lines()` contains a line feed |
| Text.LinesOfWriteLines | src/work_lists.rs:104-106 | reading back items written one per line gives each item with one trailing '\r' removed, when no item holds '\n' |
| Text.LinesRoundTrip | src/work_lists.rs:104-106 | items without '\n' and without a trailing '\r' are read back unchanged |
| Text.TrailingCrIsLost | src/work_lists.rs:104-106 | an item written as "k\r" is read back as "k" |
| Text.SplitJoin | src/db.rs:170 | comma-joined names that hold no comma split back into the same names |
| Maps.InsertAllAppend | src/db.rs:57-72 | inserting two runs of entries in turn is inserting their concatenation |
| Maps.InsertAllKeys | src/db.rs:57-72 | a key is in the filled map iff it was there before or some entry has it |
| Maps.InsertAllLastWins | src/parquet_ops.rs:55 | the last entry for a key decides its value |
| Maps.InsertAllUntouched | src/parquet_ops.rs:55 | a key no entry has keeps its old value |
| Maps.InsertAllLastEntry | src/parquet_ops.rs:55 | a key that some entry carries is in the filled map, holding the value of the last entry that carries it |
| Maps.InsertAllAgreeing | src/s3_download.rs:49-52 | when every entry for a key carries the same value, the map holds that value |
| WorkLists.IsItemIff | src/work_lists.rs:33 | a line is an item iff it has a first non-whitespace character and that character is not '#' |
| WorkLists.Items | src/work_lists.rs:29-39 | the filter keeps only items and never more lines than it is given |
| WorkLists.ItemsAppend | src/work_lists.rs:29-39 | the filter works line by line, so items keep their file order |
| WorkLists.ItemsOfItems | src/work_lists.rs:29-39 | lines that are all items are kept verbatim |
| WorkLists.Without | src/work_lists.rs:86 | `retain` leaves no occurrence of the item and keeps only elements of the old list |
| WorkLists.WithoutAppend | src/work_lists.rs:86 | removal works element by element, so the other items keep their order |
| WorkLists.WithoutAbsent | src/work_lists.rs:86 | removing an item that is not in the list changes nothing |
| WorkLists.WriteItems | src/work_lists.rs:104-106 | the writing loop produces each item followed by '\n', in order |
| WorkLists.StripCrKeepsItem | src/work_lists.rs:33 | dropping a trailing '\r' keeps an item an item |
| WorkLists.WrittenLinesAreItems | src/work_lists.rs:104-106 | every line read back from written items passes the filter, so no blank or comment line is written |
| WorkLists.ItemsRoundTrip | src/work_lists.rs:111-118 | items without '\n' and without a trailing '\r', written one per line and read back through the filter, are the same list, so the consistency check passes after a rewrite |
| WorkLists.ItemsHaveNoNewline | src/work_lists.rs:29-39 | filtering lines without '\n' gives items without '\n' |
| WorkLists.FileItemsHaveNoNewline | src/work_lists.rs:20-43 | every item read from a file passes the filter and holds no '\n' |
| WorkLists.BatchConservation | src/work_lists.rs:139-205 | the batch written to wip, read back, followed by the rest written to todo, read back, is exactly the old filtered todo |
| WorkLists.SplitRoundTrip | src/work_lists.rs:139-205 | a list of items cut anywhere, with both halves written and read back, is the list again |
| WorkLists.WorkLists.constructor | src/work_lists.rs:72-79 | the struct holds the batch size, the directory and the wip list it is given |
| WorkLists.WorkLists.New | src/work_lists.rs:61-81 | fails iff the todo file is absent; otherwise the wip list is the whole filtered wip file (empty without one), whatever the batch size, and is consistent with it |
| WorkLists.WorkLists.MarkCompleted | src/work_lists.rs:83-107 | removes every occurrence of the item; appends exactly the item to completed, created if absent and whether or not the item was in progress; rewrites wip from the remaining list, failing without a wip file; todo unchanged; consistency preserved |
| WorkLists.WorkLists.TakeBatch | src/work_lists.rs:151-156 | the batch is the first min(batch size, n) items |
| WorkLists.WorkLists.NextBatch | src/work_lists.rs:110-208 | with work in progress: nothing changes, and it fails iff the wip file no longer matches the list. Without: fails if todo is absent, else wip list and wip file are the first min(batch size, n) todo items, todo is the remaining items only, completed untouched, the batch empty iff todo had no items (positive batch size), and consistency established |
| Dates.CivilFromDays | src/converters.rs:16-20 | the date a day count gives is a valid date whose day count is that number |
| Dates.EpochIsDayZero | src/converters.rs:8-12 | day 0 is 1970-01-01 |
| Dates.CivilDaysRoundTrip | src/converters.rs:16-20 | converting a valid date to its day count and back gives the same date |
| Dates.DecimalRoundTrip | src/converters.rs:210-212 | a number rendered in zero-padded decimal reads back as that number |
| Dates.FormatYmd | src/converters.rs:210-212 | the `%Y-%m-%d` rendering; `Dates.FormatYmdRoundTrip` states that it reads back as the date |
| Dates.FormatYmdRoundTrip | src/converters.rs:210-212 | for the years 0 to 9999, `%Y-%m-%d` gives ten characters that read back as the same date |
| Converters.ParquetDateToNaiveDate | src/converters.rs:16-20 | the date is valid, and its day count from 1970-01-01 is the parquet day count |
| Converters.Apply | src/converters.rs:135-263 | applies a converter to a field; `Converters.ApplySpec` and the dispatch lemmas state what it gives |
| Converters.ApplySpec | src/converters.rs:135-263 | a field a converter does not read, NULL among them, becomes NULL; one it reads becomes a non-NULL value; integers keep their value when widened; strings pass unchanged |
| Converters.Select | src/converters.rs:239-264 | the dispatch table; the `Int32…`, `ByteArrayDispatch` and `OtherPhysicalPassThrough` lemmas state each arm |
| Converters.TypedSelectChosenFor | src/converters.rs:62-90 | consistency of the table: the INT32 and BYTE_ARRAY arms pick only converters meant for the column's postgres type |
| Converters.ChosenConverterFits | src/converters.rs:135-222 | a typed converter gives NULL, an integer of the column's width, a date for DATE, or text for a type `pgtype_accepts_str` admits |
| Converters.TypedConvertersFit | src/converters.rs:62-222 | every value an INT32 or BYTE_ARRAY converter yields is NULL or one the table means for the column's type (text only where `pgtype_accepts_str` admits it) |
| Converters.Int32DateDispatch | src/converters.rs:198-206 | INT32/DATE into DATE gives 1970-01-01 plus the day count, whose day count is the original |
| Converters.Int32DateAsTextDispatch | src/converters.rs:207-215 | INT32/DATE into VARCHAR, TEXT or BPCHAR gives the ten-character `%Y-%m-%d` text, which reads back as the date |
| Converters.Int32DateElsewhereUnsupported | src/converters.rs:217-220 | INT32/DATE into any other postgres type is unsupported |
| Converters.Int32IntDispatch | src/converters.rs:150-169 | INT32/NONE or INT_32 gives the same i32 for INT4 and the equal i64 for INT8, and is unsupported otherwise |
| Converters.Int32ShortDispatch | src/converters.rs:171-196 | INT32/INT_16 is supported exactly for INT2, INT4 and INT8, and keeps the short's value |
| Converters.Int32OtherAlwaysNull | src/converters.rs:62-74 | INT32 with any other converted type gives NULL for every field |
| Converters.ByteArrayDispatch | src/converters.rs:77-114 | UTF8, ENUM and JSON pass strings to exactly the text-accepting types; NONE and BSON are unsupported; DECIMAL gives NULL for FLOAT4 and is unsupported otherwise; other annotations give NULL |
| Converters.OtherPhysicalPassThrough | src/converters.rs:242-264 | other physical types pass each listed native variant through as its own value at its own width (Byte as i8, Short as i16, Int as i32, Long as i64, UInt as u32, and likewise for the other listed variants), and every other variant, NULL included, becomes NULL |
| Converters.Build | src/converters.rs:224-269 | succeeds iff every column has a converter, giving one per type pair in order; otherwise names the first unsupported column |
| ParquetOps.New | src/parquet_ops.rs:14-20 | always succeeds, storing the file name and desired fields unchanged |
| ParquetOps.FieldMap | src/parquet_ops.rs:33-34 | the field map of a schema; `ParquetOps.FieldMapKeys` and `ParquetOps.FlatSchemaPositions` state its keys and values |
| ParquetOps.EntriesAreLeaves | src/parquet_ops.rs:52-57 | only leaves make map entries |
| ParquetOps.ChildEntriesAreLeaves | src/parquet_ops.rs:59-62 | the entries made by a group's children are names of its leaves |
| ParquetOps.LeavesHaveEntries | src/parquet_ops.rs:52-62 | every leaf makes an entry |
| ParquetOps.ChildLeavesHaveEntries | src/parquet_ops.rs:59-62 | a leaf under a group's k-th or later child makes an entry among those children's entries |
| ParquetOps.FieldMapKeys | src/parquet_ops.rs:46-64 | a name is in the field map iff a leaf carries it, so a group's name, the root's included, never is |
| ParquetOps.FieldMapValues | src/parquet_ops.rs:46-64 | for any schema, a field's number is 0 when the schema is that single leaf, and otherwise the leaf's index among its immediate parent group's fields; it is the number of the last entry for that name in depth-first order |
| ParquetOps.EntryPositions | src/parquet_ops.rs:52-62 | every entry the walk makes is the root leaf at number 0 or a leaf at its index in its immediate parent group |
| ParquetOps.ChildEntryPositions | src/parquet_ops.rs:59-62 | every entry made while walking a group's children is a leaf at its index in its immediate parent group |
| ParquetOps.FlatChildEntries | src/parquet_ops.rs:59-62 | in a group of leaves, the entries are the leaf names with their positions |
| ParquetOps.FlatSchemaPositions | src/parquet_ops.rs:59-62 | in a flat schema with distinct names, each leaf maps to its position |
| ParquetOps.MapFieldsToCols | src/parquet_ops.rs:46-64 | the walk into a given map leaves it as if every entry of the depth-first, left-to-right walk had been inserted in turn |
| ParquetOps.DesiredCols | src/parquet_ops.rs:35-41 | the ordered lookup; `ParquetOps.DesiredColsSpec` states its success, values and first missing field |
| ParquetOps.DesiredColsSpec | src/parquet_ops.rs:35-41 | the lookup succeeds iff every desired field is in the map, giving its column number position by position, repeats included; else it names the first missing field |
| ParquetOps.GetDesiredCols | src/parquet_ops.rs:28-44 | the result is the ordered lookup of the desired fields in the field map of the schema |
| ParquetOps.IrisFieldMap | src/parquet_ops.rs:200-210 | in the iris schema, variety is column 4, sepal.length column 0, and does.not.exist is absent |
| ParquetOps.IrisLeaves | src/parquet_ops.rs:213-225 | no name other than the five iris leaves, the root's included, is in the iris field map |
| ParquetOps.IrisDesiredCols | src/parquet_ops.rs:200-238 | iris gives [4, 0], a repeat gives [4, 0, 4], and a missing field fails naming it |
| ParquetOps.NestedNumberingIsLocal | src/parquet_ops.rs:55-62 | a nested leaf is numbered within its own parent, and a later leaf with the same name overwrites the earlier |
| Db.ResolveDbCols | src/db.rs:113-132 | the alias resolution; `Db.ResolveDbColsSpec` states it position by position |
| Db.ResolveDbColsSpec | src/db.rs:113-132 | without aliases the columns are the fields; with them, column i is field i's alias or the field itself; length and order kept |
| Db.AliasExamples | src/db.rs:385-446 | the aliases of the two alias cases resolve to model and gear |
| Db.TypedSpec | src/db.rs:60-72 | the catalogue rows give one (column, type) insertion each, in order |
| Db.ColTypeMapSpec | src/db.rs:60-72 | a column maps to the type of the last row that names it |
| Db.ColTypeMapKeys | src/db.rs:60-72 | the type map holds exactly the catalogue's column names |
| Db.DbColToType | src/db.rs:37-74 | no rows fails with the table missing; an unknown OID fails naming the first; otherwise the map of each column to its type |
| Db.ColumnTypes | src/db.rs:136-145 | succeeds iff every column is in the table, giving each column's type in order; else names the first missing column |
| Db.Connect | src/db.rs:86-160 | succeeds iff the client answers, the table exists, every OID is known and every resolved column exists; the connection then holds the resolved columns and their types position by position; a client error and a missing table are reported as such, an unknown OID names the first row that has one, and otherwise a missing column names the first resolved column the table lacks |
| Db.CopyInSql | src/db.rs:167-171 | the COPY statement; `Db.CopyInSqlParts` states its parts and that the column list splits back |
| Db.CopyInSqlParts | src/db.rs:167-171 | the statement is "COPY ", the table name, " (", the comma-joined columns and ") FROM STDIN BINARY", with no quoting; the column list splits back into the columns |
| Db.ProjectRow | src/db.rs:184-188 | field i of the projection is the row's field at column number i |
| Db.ConvertRow | src/db.rs:190-195 | value i is converter i applied to field i |
| Db.WriteRows | src/db.rs:161-240 | the first unsupported column fails before any row; a failed COPY fails with nothing sent; otherwise every row sent is the projected, converted row in order, stopping at the first unreadable or refused row; after the last row the result is the count `finish` reports or its error |
| Db.DisplayMultiLine | src/db.rs:20-28 | the display is each line of the message followed by '\n' |
| Db.MultiLineDisplaysMessage | src/db.rs:20-28 | a message without '\r' displays as itself, with '\n' added when it does not end with one |
| S3Download.TrimTrailingSlashes | src/s3_download.rs:22 | the parent path loses exactly the '/' at its end |
| S3Download.GetDirpath | src/s3_download.rs:12-32 | the directory part of a key; `S3Download.DirpathShape`, `NoDirpath`, `NestedDirpath` and `DirpathExamples` state it |
| S3Download.DirpathShape | src/s3_download.rs:12-32 | a directory part is a non-empty prefix of the key, not ending in '/', followed by separators and a last name without '/' |
| S3Download.NoDirpath | src/s3_download.rs:22-31 | a key without '/', or whose parent is the root, has no directory part |
| S3Download.NestedDirpath | src/s3_download.rs:22-27 | a key made of path parts has as directory part all parts but the last |
| S3Download.DirpathOfSplitKey | src/s3_download.rs:22-27 | the directory part of d/name is d |
| S3Download.DirpathExamples | src/s3_download.rs:12-32 | x/y/z.parquet gives x/y; a.parquet and /a.parquet give none; x/y/ fails |
| S3Download.LocalDirToCreate | src/s3_download.rs:62-66 | the directory created for a key; `S3Download.FileInsideCreatedDir` states it holds the key's file |
| S3Download.FileInsideCreatedDir | src/s3_download.rs:62-66 | the directory created for a key contains the file written for it |
| S3Download.DownloadMap | src/s3_download.rs:49-52 | the key→local path map; `S3Download.DownloadMapSpec` states its domain and values |
| S3Download.DownloadEntriesSpec | src/s3_download.rs:49-52 | key i is paired with output_dir/key i |
| S3Download.DownloadMapSpec | src/s3_download.rs:49-52 | the map's domain is exactly the keys, each sent to output_dir + "/" + key |
| CmdArgs.ConfigYaml | src/cmd_args.rs:16-28 | succeeds iff exactly one argument follows the binary name, returning it unchanged; otherwise IncorrectArgs |
| CmdArgs.BinaryNameIgnored | src/cmd_args.rs:23-27 | the binary's name never affects the result |
| CmdArgs.ConfigYamlExamples | src/cmd_args.rs:35-87 | one argument gives it back; none, two or no list at all give IncorrectArgs |

## Left out

- Filesystem, network and database I/O are outside the model: opening, reading and writing files, connecting, the catalogue query, `copy_in`, `BinaryCopyInWriter`, and the spawned connection task. Their results are inputs. OS-level errors other than a missing todo or wip file are not modelled.
- `Parquet::file_reader` and the parquet crate's metadata and row reader are replaced by a schema tree and a sequence of rows, each read or failed.
- `s3_download::get` downloads concurrently (`buffer_unordered`, the mpsc channel, `tokio::spawn`). That is concurrency and network; only the key→path map and the per-key paths are modelled. `delete` is network only.
- In `get`, an error from `get_dirpath` is unwrapped, which is a panic. The model stops at the `Result` that `LocalDirToCreate` returns.
- S3Download.GetDirpath: `Path::parent` also normalises '.' segments, which the model does not. The model is the text before the last '/', less trailing '/'.
- src/runner.rs is orchestration only. Its loop over batches is not part of this model. It destructures a pair from `get_desired_cols`, which returns only column numbers. The model follows `get_desired_cols` and takes the (physical, converted) type pairs as a separate input to `Build` and `WriteRows`.
- src/config.rs, src/test_setup.rs, src/display_schema.rs and src/main.rs: deserialisation, docker control, printing and wiring.
- Logging (`debug!`, `info!`, `error!`, `println!`) is not modelled.
- The exact text of error messages is not modelled. Each error case is a datatype variant carrying what identifies it: the table, the column, the OID, the first missing field or the column index.
- Converters.Apply: floats (`Float`, `Double`) are opaque bit patterns passed through; no arithmetic is done on them.
- Converters.TypedConvertersFit: "fits" means what the dispatch table and `pgtype_accepts_str` intend for the column type. The postgres driver may still refuse text for DATE, TIMESTAMP, TIMESTAMPTZ, INET, CIDR or CHAR columns, and that refusal is the writer's answer in `Db.WriteRows`.
- Converters.ParquetDateToNaiveDate: chrono panics for day counts beyond its date range; the model's calendar is total and unbounded.
- Converters.Build: `todo!()` panics in the dispatch table are the outcome `Unsupported`. `Build`, and `WriteRows` through it, return the first such column as an error instead of panicking.
- Converters.Build and Db.WriteRows: `requires` clauses stand in for the index panics of the source. These are `db_col_types[i]` in `build`, `all_fields[index]` and `desired_fields[i]` in `write_rows`.
- Db.DbColToType: `PgType::from_oid` is an input map from OID to type.
- ParquetOps.MapFieldsToCols: the `&mut HashMap` it updates is passed in and the updated map returned. The unused `_depth` argument is kept.
- WorkLists.WorkLists.NextBatch: the todo file is modelled as read whole, where the source reads it through one buffered reader. The file's content is the same.
