/**
 * The database side: resolving the destination columns from the desired parquet fields
 * and an optional alias map, checking them against the table's catalogue, the COPY
 * statement, and projecting and converting each parquet row for the binary COPY writer.
 * The postgres client is abstract: what it answers is given as input.
 */
module Db {
  import opened Wrappers
  import opened Text
  import opened Maps
  import opened Converters

  datatype DbError =
    | ClientError(message: string)              // connecting, querying or opening the COPY
    | RowReadFailed(message: string)            // a parquet row could not be read
    | TableMissing(table: string)               // the catalogue has no column for the table
    | UnknownTypeOid(oid: nat)                  // a column type OID with no known postgres type
    | MissingColumn(table: string, column: string)
    | ConverterMissing(index: nat)              // no converter is implemented for this column
    | WriteFailed(message: string)              // the writer refused a row
    | FinishFailed(message: string)             // the COPY failed when flushed

  /** A row of the catalogue query: a column of the table and its type OID. */
  datatype CatalogRow = CatalogRow(columnName: string, typeOid: nat)

  /** A connection to the table: the destination columns and their postgres types. */
  datatype Db = Db(dbCols: seq<string>, dbColTypes: seq<PgType>, tableName: string)

  /**
   * The destination column for one desired field: the field's alias when the alias
   * map gives one, the field's own name when the map has no entry for it or maps it
   * to no alias.
   */
  function DbColFor(aliases: map<string, Option<string>>, field: string): string
  {
    if field !in aliases then field
    else match aliases[field]
      case None => field
      case Some(alias) => alias
  }

  /** The destination columns, one per desired parquet field, in order. */
  function ResolveDbCols(parquetFields: seq<string>, aliases: Option<map<string, Option<string>>>): seq<string>
  {
    match aliases
    case None => parquetFields
    case Some(a) =>
      if parquetFields == [] then []
      else [DbColFor(a, parquetFields[0])] + ResolveDbCols(parquetFields[1..], aliases)
  }

  /**
   * Without an alias map the columns are the fields; with one, the i-th column is the
   * i-th field's alias, or the field itself when it has none. No field is dropped.
   */
  lemma {:induction false} ResolveDbColsSpec(parquetFields: seq<string>, aliases: Option<map<string, Option<string>>>)
    ensures aliases.None? ==> ResolveDbCols(parquetFields, aliases) == parquetFields
    ensures |ResolveDbCols(parquetFields, aliases)| == |parquetFields|
    ensures aliases.Some? ==> forall i :: 0 <= i < |parquetFields| ==>
      ResolveDbCols(parquetFields, aliases)[i] ==
        (if parquetFields[i] in aliases.value && aliases.value[parquetFields[i]].Some?
         then aliases.value[parquetFields[i]].value else parquetFields[i])
    decreases |parquetFields|
  {
    if aliases.Some? && parquetFields != [] {
      ResolveDbColsSpec(parquetFields[1..], aliases);
      assert forall i :: 1 <= i < |parquetFields| ==> parquetFields[i] == parquetFields[1..][i - 1];
    }
  }

  /** The aliases of the alias test case: every field is renamed. */
  lemma AliasExamples()
    ensures ResolveDbCols(["i.model", "num_of_gears"],
      Some(map["i.model" := Some("model"), "num_of_gears" := Some("gear")])) == ["model", "gear"]
    ensures ResolveDbCols(["model", "num_of_gears"],
      Some(map["model" := None, "num_of_gears" := Some("gear")])) == ["model", "gear"]
  {
    ResolveDbColsSpec(["i.model", "num_of_gears"], Some(map["i.model" := Some("model"), "num_of_gears" := Some("gear")]));
    ResolveDbColsSpec(["model", "num_of_gears"], Some(map["model" := None, "num_of_gears" := Some("gear")]));
  }

  predicate AllOidsKnown(rows: seq<CatalogRow>, fromOid: map<nat, PgType>)
  {
    forall i :: 0 <= i < |rows| ==> rows[i].typeOid in fromOid
  }

  /** The (column, type) insertions the catalogue rows make, in order. */
  function Typed(rows: seq<CatalogRow>, fromOid: map<nat, PgType>): seq<(string, PgType)>
    requires AllOidsKnown(rows, fromOid)
  {
    if rows == [] then []
    else Typed(rows[..|rows| - 1], fromOid) + [(rows[|rows| - 1].columnName, fromOid[rows[|rows| - 1].typeOid])]
  }

  /** The column-to-type map of a table whose every type OID is known. */
  function ColTypeMap(rows: seq<CatalogRow>, fromOid: map<nat, PgType>): map<string, PgType>
    requires AllOidsKnown(rows, fromOid)
  {
    InsertAll(map[], Typed(rows, fromOid))
  }

  lemma {:induction false} TypedSpec(rows: seq<CatalogRow>, fromOid: map<nat, PgType>)
    requires AllOidsKnown(rows, fromOid)
    ensures |Typed(rows, fromOid)| == |rows|
    ensures forall i :: 0 <= i < |rows| ==> Typed(rows, fromOid)[i] == (rows[i].columnName, fromOid[rows[i].typeOid])
    decreases |rows|
  {
    if rows != [] {
      TypedSpec(rows[..|rows| - 1], fromOid);
    }
  }

  /**
   * The column-to-type map holds exactly the catalogue's column names, each with the
   * type of the last row that names it.
   */
  lemma ColTypeMapSpec(rows: seq<CatalogRow>, fromOid: map<nat, PgType>, i: nat)
    requires AllOidsKnown(rows, fromOid)
    requires i < |rows|
    requires forall j :: i < j < |rows| ==> rows[j].columnName != rows[i].columnName
    ensures rows[i].columnName in ColTypeMap(rows, fromOid)
    ensures ColTypeMap(rows, fromOid)[rows[i].columnName] == fromOid[rows[i].typeOid]
  {
    var es := Typed(rows, fromOid);
    TypedSpec(rows, fromOid);
    assert es == es[..i] + [es[i]] + es[i + 1..];
    forall e | e in es[i + 1..] ensures e.0 != rows[i].columnName {
      var j :| 0 <= j < |es[i + 1..]| && es[i + 1..][j] == e;
      assert e == es[i + 1 + j];
    }
    InsertAllLastWins(map[], es[..i], rows[i].columnName, fromOid[rows[i].typeOid], es[i + 1..]);
  }

  lemma ColTypeMapKeys(rows: seq<CatalogRow>, fromOid: map<nat, PgType>, column: string)
    requires AllOidsKnown(rows, fromOid)
    ensures column in ColTypeMap(rows, fromOid) <==> exists i :: 0 <= i < |rows| && rows[i].columnName == column
  {
    var es := Typed(rows, fromOid);
    TypedSpec(rows, fromOid);
    InsertAllKeys(map[], es, column);
    if column in ColTypeMap(rows, fromOid) {
      var e :| e in es && e.0 == column;
      var i :| 0 <= i < |es| && es[i] == e;
      assert rows[i].columnName == column;
    }
    if exists i :: 0 <= i < |rows| && rows[i].columnName == column {
      var i :| 0 <= i < |rows| && rows[i].columnName == column;
      assert es[i] in es;
    }
  }

  /**
   * `db_col_to_type`, given the rows the catalogue query returned and the mapping from
   * type OIDs to postgres types: no rows means the table does not exist; a row whose
   * OID has no type fails; otherwise each column name is mapped to its type in turn.
   */
  method DbColToType(tableName: string, rows: seq<CatalogRow>, fromOid: map<nat, PgType>)
    returns (r: Result<map<string, PgType>, DbError>)
    ensures rows == [] ==> r == Failure(TableMissing(tableName))
    ensures rows != [] && AllOidsKnown(rows, fromOid) ==> r == Success(ColTypeMap(rows, fromOid))
    ensures rows != [] && !AllOidsKnown(rows, fromOid) ==>
      exists k :: 0 <= k < |rows| && rows[k].typeOid !in fromOid
        && AllOidsKnown(rows[..k], fromOid)
        && r == Failure(UnknownTypeOid(rows[k].typeOid))
  {
    if rows == [] {
      return Failure(TableMissing(tableName));
    }
    var colToType: map<string, PgType> := map[];
    var i := 0;
    while i < |rows|
      invariant 0 <= i <= |rows|
      invariant AllOidsKnown(rows[..i], fromOid)
      invariant colToType == ColTypeMap(rows[..i], fromOid)
    {
      var row := rows[i];
      if row.typeOid !in fromOid {
        return Failure(UnknownTypeOid(row.typeOid));
      }
      assert rows[..i + 1][..i] == rows[..i];
      InsertAllAppend(map[], Typed(rows[..i], fromOid), [(row.columnName, fromOid[row.typeOid])]);
      assert [(row.columnName, fromOid[row.typeOid])][1..] == [];
      colToType := colToType[row.columnName := fromOid[row.typeOid]];
      i := i + 1;
    }
    assert rows[..i] == rows;
    return Success(colToType);
  }

  /**
   * The check in `Db::connect`: every destination column must be in the table; the
   * types are collected in column order, and the first missing column is named.
   */
  method ColumnTypes(tableName: string, dbCols: seq<string>, colToType: map<string, PgType>)
    returns (r: Result<seq<PgType>, DbError>)
    ensures r.Success? <==> forall i :: 0 <= i < |dbCols| ==> dbCols[i] in colToType
    ensures r.Success? ==>
      && |r.value| == |dbCols|
      && forall i :: 0 <= i < |dbCols| ==> r.value[i] == colToType[dbCols[i]]
    ensures r.Failure? ==>
      exists k :: && 0 <= k < |dbCols| && dbCols[k] !in colToType
                  && (forall i :: 0 <= i < k ==> dbCols[i] in colToType)
                  && r.error == MissingColumn(tableName, dbCols[k])
  {
    var dbColTypes: seq<PgType> := [];
    var i := 0;
    while i < |dbCols|
      invariant 0 <= i <= |dbCols|
      invariant |dbColTypes| == i
      invariant forall j :: 0 <= j < i ==> dbCols[j] in colToType && dbColTypes[j] == colToType[dbCols[j]]
    {
      if dbCols[i] !in colToType {
        return Failure(MissingColumn(tableName, dbCols[i]));
      }
      dbColTypes := dbColTypes + [colToType[dbCols[i]]];
      i := i + 1;
    }
    return Success(dbColTypes);
  }

  /** Whether every resolved column is a column of the table the catalogue describes. */
  predicate ColumnsExist(dbCols: seq<string>, rows: seq<CatalogRow>, fromOid: map<nat, PgType>)
    requires AllOidsKnown(rows, fromOid)
  {
    forall i :: 0 <= i < |dbCols| ==> dbCols[i] in ColTypeMap(rows, fromOid)
  }

  /**
   * `Db::connect`. `catalog` is what connecting and running the catalogue query gave:
   * the rows, or the client's error. It succeeds iff the client answered, the table has
   * columns, every type OID is known and every resolved column exists; the connection
   * then holds the resolved columns and, position by position, their types.
   */
  method Connect(tableName: string, parquetFields: seq<string>, aliases: Option<map<string, Option<string>>>,
                 catalog: Result<seq<CatalogRow>, string>, fromOid: map<nat, PgType>)
    returns (r: Result<Db, DbError>)
    ensures catalog.Failure? ==> r == Failure(ClientError(catalog.error))
    ensures catalog.Success? && catalog.value == [] ==> r == Failure(TableMissing(tableName))
    ensures r.Success? <==>
      catalog.Success? && catalog.value != [] && AllOidsKnown(catalog.value, fromOid)
      && ColumnsExist(ResolveDbCols(parquetFields, aliases), catalog.value, fromOid)
    ensures r.Success? ==>
      && r.value.tableName == tableName
      && r.value.dbCols == ResolveDbCols(parquetFields, aliases)
      && |r.value.dbCols| == |parquetFields|
      && |r.value.dbColTypes| == |r.value.dbCols|
      && forall i :: 0 <= i < |r.value.dbCols| ==>
           r.value.dbColTypes[i] == ColTypeMap(catalog.value, fromOid)[r.value.dbCols[i]]
    ensures r.Failure? && r.error.MissingColumn? ==>
      r.error.table == tableName && r.error.column in ResolveDbCols(parquetFields, aliases)
    ensures catalog.Success? && catalog.value != [] && !AllOidsKnown(catalog.value, fromOid) ==>
      exists k :: 0 <= k < |catalog.value| && catalog.value[k].typeOid !in fromOid
        && AllOidsKnown(catalog.value[..k], fromOid)
        && r == Failure(UnknownTypeOid(catalog.value[k].typeOid))
    ensures (catalog.Success? && catalog.value != [] && AllOidsKnown(catalog.value, fromOid)
             && !ColumnsExist(ResolveDbCols(parquetFields, aliases), catalog.value, fromOid)) ==>
      var dbCols := ResolveDbCols(parquetFields, aliases);
      exists k :: && 0 <= k < |dbCols| && dbCols[k] !in ColTypeMap(catalog.value, fromOid)
                  && (forall i :: 0 <= i < k ==> dbCols[i] in ColTypeMap(catalog.value, fromOid))
                  && r == Failure(MissingColumn(tableName, dbCols[k]))
  {
    if catalog.Failure? {
      return Failure(ClientError(catalog.error));
    }
    var colToType := DbColToType(tableName, catalog.value, fromOid);
    if colToType.Failure? {
      return Failure(colToType.error);
    }
    var dbCols := ResolveDbCols(parquetFields, aliases);
    ResolveDbColsSpec(parquetFields, aliases);
    var dbColTypes := ColumnTypes(tableName, dbCols, colToType.value);
    if dbColTypes.Failure? {
      return Failure(dbColTypes.error);
    }
    return Success(Db(dbCols, dbColTypes.value, tableName));
  }

  const CopyPrefix := "COPY "
  const CopySuffix := ") FROM STDIN BINARY"

  /** The COPY statement: table and column names are inserted as given, without quoting. */
  function CopyInSql(tableName: string, dbCols: seq<string>): string
  {
    CopyPrefix + tableName + " (" + Join(dbCols, ",") + CopySuffix
  }

  /**
   * The statement is the table name and the comma-joined columns between fixed text;
   * when no column name holds a comma, the column list reads back as the columns.
   */
  lemma CopyInSqlParts(tableName: string, dbCols: seq<string>)
    ensures var s := CopyInSql(tableName, dbCols);
      && s[..5] == "COPY "
      && s[5..5 + |tableName|] == tableName
      && s[5 + |tableName|..7 + |tableName|] == " ("
      && s[|s| - |CopySuffix|..] == ") FROM STDIN BINARY"
      && s[7 + |tableName|..|s| - |CopySuffix|] == Join(dbCols, ",")
    ensures dbCols != [] && (forall k :: 0 <= k < |dbCols| ==> ',' !in dbCols[k]) ==>
      Split(CopyInSql(tableName, dbCols)[7 + |tableName|..|CopyInSql(tableName, dbCols)| - |CopySuffix|], ',') == dbCols
  {
    var s := CopyInSql(tableName, dbCols);
    var cols := Join(dbCols, ",");
    assert s == "COPY " + tableName + " (" + cols + CopySuffix;
    assert s[7 + |tableName|..|s| - |CopySuffix|] == cols;
    if dbCols != [] && (forall k :: 0 <= k < |dbCols| ==> ',' !in dbCols[k]) {
      assert [','] == ",";
      SplitJoin(dbCols, ',');
    }
  }

  /** The fields at the wanted column numbers of a row, in the wanted order. */
  function ProjectRow(allFields: seq<Field>, colNums: seq<nat>): (projected: seq<Field>)
    requires forall k :: 0 <= k < |colNums| ==> colNums[k] < |allFields|
    ensures |projected| == |colNums|
    ensures forall k :: 0 <= k < |colNums| ==> projected[k] == allFields[colNums[k]]
  {
    if colNums == [] then [] else [allFields[colNums[0]]] + ProjectRow(allFields, colNums[1..])
  }

  /** Each converter applied to the field at its own position; extra fields are ignored. */
  function ConvertRow(converters: seq<Converter>, fields: seq<Field>): (values: seq<SqlValue>)
    requires |converters| <= |fields|
    ensures |values| == |converters|
    ensures forall k :: 0 <= k < |converters| ==> values[k] == Apply(converters[k], fields[k])
  {
    if converters == [] then [] else [Apply(converters[0], fields[0])] + ConvertRow(converters[1..], fields[1..])
  }

  predicate AllSupported(pqTypeData: seq<(PhysicalType, ConvertedType)>, dbColTypes: seq<PgType>)
    requires |pqTypeData| <= |dbColTypes|
  {
    forall k :: 0 <= k < |pqTypeData| ==> Select(pqTypeData[k].0, pqTypeData[k].1, dbColTypes[k]).Convert?
  }

  /**
   * The values written for one parquet row: field `colNums[k]` of the row, through the
   * converter the table gives for column k.
   */
  predicate RowWritten(pqTypeData: seq<(PhysicalType, ConvertedType)>, dbColTypes: seq<PgType>,
                       allFields: seq<Field>, colNums: seq<nat>, values: seq<SqlValue>)
    requires |pqTypeData| <= |dbColTypes| && AllSupported(pqTypeData, dbColTypes)
  {
    && |pqTypeData| <= |colNums|
    && (forall k :: 0 <= k < |colNums| ==> colNums[k] < |allFields|)
    && |values| == |pqTypeData|
    && forall k :: 0 <= k < |pqTypeData| ==>
         values[k] == Apply(Select(pqTypeData[k].0, pqTypeData[k].1, dbColTypes[k]).converter, allFields[colNums[k]])
  }

  predicate HasCols(row: Result<seq<Field>, string>, colNums: seq<nat>)
  {
    row.Success? ==> forall k :: 0 <= k < |colNums| ==> colNums[k] < |row.value|
  }

  /**
   * `write_rows`. The client's part is given: its answer to opening the COPY statement
   * `CopyInSql(db.tableName, db.dbCols)`, the writer's answer for the j-th row it is
   * handed, and the outcome of flushing. It
   * builds the converters; then, row by row, reads the row, projects it onto the wanted
   * columns, converts it and hands it to the writer, stopping at the first row that
   * cannot be read or written; after the last row it flushes, returning the count the
   * database reports. `sent` holds the rows the writer accepted, in order.
   */
  method WriteRows(db: Db, rows: seq<Result<seq<Field>, string>>, colNums: seq<nat>,
                   pqTypeData: seq<(PhysicalType, ConvertedType)>,
                   copyIn: string -> Outcome<string>, write: (nat, seq<SqlValue>) -> Outcome<string>,
                   finish: Result<nat, string>)
    returns (r: Result<nat, DbError>, sent: seq<seq<SqlValue>>)
    requires |pqTypeData| <= |db.dbColTypes|
    requires |pqTypeData| <= |colNums|
    requires forall j :: 0 <= j < |rows| ==> HasCols(rows[j], colNums)
    ensures !AllSupported(pqTypeData, db.dbColTypes) ==>
      sent == [] && r.Failure? && r.error.ConverterMissing?
      && r.error.index < |pqTypeData|
      && Select(pqTypeData[r.error.index].0, pqTypeData[r.error.index].1, db.dbColTypes[r.error.index]).Unsupported?
      && forall k :: 0 <= k < r.error.index ==> Select(pqTypeData[k].0, pqTypeData[k].1, db.dbColTypes[k]).Convert?
    ensures AllSupported(pqTypeData, db.dbColTypes) && copyIn(CopyInSql(db.tableName, db.dbCols)).Fail? ==>
      sent == [] && r == Failure(ClientError(copyIn(CopyInSql(db.tableName, db.dbCols)).error))
    ensures AllSupported(pqTypeData, db.dbColTypes) && copyIn(CopyInSql(db.tableName, db.dbCols)).Pass? ==>
      && |sent| <= |rows|
      && (forall j :: 0 <= j < |sent| ==>
            rows[j].Success? && write(j, sent[j]).Pass?
            && RowWritten(pqTypeData, db.dbColTypes, rows[j].value, colNums, sent[j]))
      && (|sent| == |rows| ==>
            r == (if finish.Success? then Success(finish.value) else Failure(FinishFailed(finish.error))))
      && (|sent| < |rows| ==>
            (rows[|sent|].Failure? && r == Failure(RowReadFailed(rows[|sent|].error)))
            || (rows[|sent|].Success? && exists values ::
                  RowWritten(pqTypeData, db.dbColTypes, rows[|sent|].value, colNums, values)
                  && write(|sent|, values).Fail? && r == Failure(WriteFailed(write(|sent|, values).error))))
  {
    sent := [];
    var copyInSql := CopyInSql(db.tableName, db.dbCols);
    var built := Build(pqTypeData, db.dbColTypes);
    if built.Failure? {
      return Failure(ConverterMissing(built.error.index)), sent;
    }
    var converters := built.value;
    var copyOutcome := copyIn(copyInSql);
    if copyOutcome.Fail? {
      return Failure(ClientError(copyOutcome.error)), sent;
    }
    var j := 0;
    while j < |rows|
      invariant 0 <= j <= |rows|
      invariant |sent| == j
      invariant forall i :: 0 <= i < j ==>
        rows[i].Success? && write(i, sent[i]).Pass?
        && RowWritten(pqTypeData, db.dbColTypes, rows[i].value, colNums, sent[i])
    {
      if rows[j].Failure? {
        return Failure(RowReadFailed(rows[j].error)), sent;
      }
      var allFields := rows[j].value;
      var desiredFields := ProjectRow(allFields, colNums);
      var converted := ConvertRow(converters, desiredFields);
      assert RowWritten(pqTypeData, db.dbColTypes, allFields, colNums, converted);
      var outcome := write(j, converted);
      if outcome.Fail? {
        return Failure(WriteFailed(outcome.error)), sent;
      }
      sent := sent + [converted];
      j := j + 1;
    }
    match finish {
      case Success(numRowsAdded) => r := Success(numRowsAdded);
      case Failure(e) => r := Failure(FinishFailed(e));
    }
  }

  /**
   * `MultiLineError`'s display: the message cut into lines, each written followed by a
   * line feed.
   */
  method DisplayMultiLine(msg: string) returns (out: string)
    ensures out == WriteLines(Lines(msg))
  {
    var lines := Lines(msg);
    out := "";
    var i := 0;
    while i < |lines|
      invariant 0 <= i <= |lines|
      invariant out == WriteLines(lines[..i])
    {
      assert lines[..i + 1] == lines[..i] + [lines[i]];
      WriteLinesSnoc(lines[..i], lines[i]);
      out := out + lines[i] + "\n";
      i := i + 1;
    }
    assert lines[..i] == lines;
  }

  /**
   * For a message without carriage returns the display is the message itself, with a
   * line feed added when it does not already end with one.
   */
  lemma {:induction false} MultiLineDisplaysMessage(msg: string)
    requires '\r' !in msg
    ensures WriteLines(Lines(msg)) == if msg == [] || msg[|msg| - 1] == '\n' then msg else msg + "\n"
    decreases |msg|
  {
    if msg != [] && '\n' in msg {
      var i := IndexOf(msg, '\n');
      var line, rest := msg[..i], msg[i + 1..];
      NoCrInSlice(msg, 0, i);
      NoCrInSlice(msg, i + 1, |msg|);
      assert msg[0..i] == line && msg[i + 1..|msg|] == rest;
      assert msg == line + "\n" + rest;
      MultiLineDisplaysMessage(rest);
      DisplayFirstLine(line, rest);
      DisplayAfterFirstLine(line, rest);
    } else if msg != [] {
      assert msg[|msg| - 1] in msg;
      assert Lines(msg) == [msg];
      assert [msg][1..] == [];
    }
  }

  /** The display of a message is its first line, a line feed, then the display of the rest. */
  lemma DisplayFirstLine(line: string, rest: string)
    requires '\n' !in line && '\r' !in line
    ensures WriteLines(Lines(line + "\n" + rest)) == line + "\n" + WriteLines(Lines(rest))
  {
    var msg := line + "\n" + rest;
    assert msg == line + ['\n'] + rest;
    IndexOfAfterPrefix(line, '\n', rest);
    assert msg[..|line|] == line && msg[|line| + 1..] == rest;
    assert !EndsWithCr(line) by {
      if line != [] {
        assert line[|line| - 1] in line;
      }
    }
    assert Lines(msg) == [line] + Lines(rest);
    assert ([line] + Lines(rest))[1..] == Lines(rest);
  }

  /** How the display ends is decided by how the rest of the message ends. */
  lemma DisplayAfterFirstLine(line: string, rest: string)
    requires WriteLines(Lines(rest)) == if rest == [] || rest[|rest| - 1] == '\n' then rest else rest + "\n"
    ensures var msg := line + "\n" + rest;
      line + "\n" + WriteLines(Lines(rest)) == if msg[|msg| - 1] == '\n' then msg else msg + "\n"
  {
    var msg := line + "\n" + rest;
    if rest != [] {
      assert msg[|msg| - 1] == rest[|rest| - 1];
    }
  }

  lemma NoCrInSlice(s: string, lo: nat, hi: nat)
    requires '\r' !in s && lo <= hi <= |s|
    ensures '\r' !in s[lo..hi]
  {
    assert forall k :: 0 <= k < hi - lo ==> s[lo..hi][k] == s[lo + k];
  }
}
