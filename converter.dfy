/**
 * The program's top level for one table: the pre-flight checks of `Main`
 * (against the lists the server reports) followed by
 * `CreateConversionScriptForTable`.  Server queries are inputs: the list of
 * supported character sets, the database list, the table list of the
 * database, and the `DESCRIBE` and `SHOW INDEXES` rows of the table.
 */
module Converter {
  import opened Wrappers
  import opened Errors
  import opened OrderedMap
  import opened TargetName
  import opened TypeMap
  import opened Columns
  import opened Indexes
  import opened Render

  /** Target parsing, then the encoding, database and table checks, in the order
      `Main` runs them; the first failing one decides the error. */
  function Preflight(target: string, dest: string, source: Option<string>,
                     encodings: seq<string>, databases: seq<string>, tables: seq<string>): (r: Result<Target, Error>)
    ensures r.Ok? ==> Parse(target) == Ok(r.value) && dest in encodings && r.value.database in databases
    ensures r.Err? ==> IsFailCall(r.error)
  {
    match Parse(target)
    case Err(e) => Err(e)
    case Ok(t) =>
      if dest !in encodings then Err(UnsupportedDestEncoding(dest))
      else if source.Some? && source.value !in encodings then Err(UnsupportedSourceEncoding(source.value))
      else if t.database !in databases then Err(DatabaseNotFound(t.database))
      else if t.table.Some? && t.table.value !in tables then Err(TableNotFound(t.table.value))
      else Ok(t)
  }

  /** Each error arises exactly when every earlier check passes and its own check fails. */
  lemma PreflightOrder(target: string, dest: string, source: Option<string>,
                       encodings: seq<string>, databases: seq<string>, tables: seq<string>)
    ensures var r := Preflight(target, dest, source, encodings, databases, tables);
      && (r == Err(InvalidTarget) <==> Parse(target).Err?)
      && (r.Err? && r.error.UnsupportedDestEncoding? <==> Parse(target).Ok? && dest !in encodings)
      && (r.Err? && r.error.UnsupportedSourceEncoding? <==>
            Parse(target).Ok? && dest in encodings && source.Some? && source.value !in encodings)
      && (r.Err? && r.error.DatabaseNotFound? <==>
            Parse(target).Ok? && dest in encodings && (source.None? || source.value in encodings)
            && Parse(target).value.database !in databases)
      && (r.Err? && r.error.TableNotFound? <==>
            Parse(target).Ok? && dest in encodings && (source.None? || source.value in encodings)
            && Parse(target).value.database in databases
            && Parse(target).value.table.Some? && Parse(target).value.table.value !in tables)
      && (r.Ok? <==>
            Parse(target).Ok? && dest in encodings && (source.None? || source.value in encodings)
            && Parse(target).value.database in databases
            && (Parse(target).value.table.None? || Parse(target).value.table.value in tables))
      && (r.Ok? ==> r.value == Parse(target).value)
      && (r.Err? ==> IsFailCall(r.error))
  {
  }

  /** The whole of `CreateConversionScriptForTable` as a value. */
  function ConversionScript(db: string, tbl: string, dest: string,
                            describe: seq<DescribeRow>, indexRows: seq<IndexRow>): (r: Result<string, Error>)
    ensures r.Err? ==> r.error.IndexNotFlagged?
    ensures r.Ok? ==> Header(db, tbl, dest) <= r.value
  {
    var cols := ColumnsOf(describe);
    match Resolve(indexRows, cols)
    case Err(e) => Err(e)
    case Ok(idx) =>
      ResolvedMembersNonEmpty(indexRows, cols, idx);
      Ok(ScriptText(db, tbl, dest, cols, idx))
  }

  /** Column classification, the two index loops and the script assembly, in sequence. */
  method CreateConversionScriptForTable(db: string, tbl: string, dest: string,
                                        describe: seq<DescribeRow>, indexRows: seq<IndexRow>)
    returns (r: Result<string, Error>)
    requires UniqueConvertedNames(describe)
    ensures r == ConversionScript(db, tbl, dest, describe, indexRows)
  {
    var columnsToConvert := CollectColumns(describe);
    var indexesBuffer, flagged := FirstPass(indexRows, columnsToConvert);
    var resolved := SecondPass(indexesBuffer, columnsToConvert, flagged);
    if resolved.Err? {
      return Err(resolved.error);
    }
    var indexesToConvert := resolved.value;
    ResolvedMembersNonEmpty(indexRows, columnsToConvert, indexesToConvert);
    var script := RenderScript(db, tbl, dest, columnsToConvert, indexesToConvert);
    return Ok(script);
  }

  /** C# interpolates a null table name as the empty string. */
  function TableText(t: Target): string {
    if t.table.Some? then t.table.value else ""
  }

  /** `Main` from target parsing on: the first failing check, or the script. */
  method Run(target: string, dest: string, source: Option<string>,
             encodings: seq<string>, databases: seq<string>, tables: seq<string>,
             describe: seq<DescribeRow>, indexRows: seq<IndexRow>)
    returns (r: Result<string, Error>)
    requires UniqueConvertedNames(describe)
    ensures var pre := Preflight(target, dest, source, encodings, databases, tables);
      && (pre.Err? ==> r == Err(pre.error))
      && (pre.Ok? ==> r == ConversionScript(pre.value.database, TableText(pre.value), dest, describe, indexRows))
  {
    var parsed := Parse(target);
    if parsed.Err? {
      return Err(parsed.error);
    }
    var t := parsed.value;
    if dest !in encodings {
      return Err(UnsupportedDestEncoding(dest));
    }
    if source.Some? {
      if source.value !in encodings {
        return Err(UnsupportedSourceEncoding(source.value));
      }
    }
    if t.database !in databases {
      return Err(DatabaseNotFound(t.database));
    }
    if t.table.Some? {
      if t.table.value !in tables {
        return Err(TableNotFound(t.table.value));
      }
    }
    r := CreateConversionScriptForTable(t.database, TableText(t), dest, describe, indexRows);
  }

  // ---- Properties of the whole table conversion ----

  /** The conversion throws exactly when a usable index row names a converted
      column of an index that no TINYTEXT, MEDIUMTEXT or TEXT column flagged. */
  lemma ConversionFails(db: string, tbl: string, dest: string, describe: seq<DescribeRow>, indexRows: seq<IndexRow>)
    ensures ConversionScript(db, tbl, dest, describe, indexRows).Err? ==>
      exists i :: OrphanRow(indexRows, ColumnsOf(describe), i)
    ensures (exists i :: OrphanRow(indexRows, ColumnsOf(describe), i)) ==>
      ConversionScript(db, tbl, dest, describe, indexRows).Err?
  {
    ResolveFails(indexRows, ColumnsOf(describe));
  }

  /** Without a TINYTEXT, MEDIUMTEXT or TEXT column no index is ever rebuilt: a table
      whose text columns are all LONGTEXT, VARCHAR or CHAR gets no DROP or ADD phase
      (or, when one of those columns is indexed, no script at all). */
  lemma NoShortTextNoIndexPhases(db: string, tbl: string, dest: string,
                                 describe: seq<DescribeRow>, indexRows: seq<IndexRow>)
    requires forall i :: 0 <= i < |describe| && describe[i].typ.Some? ==> !IsShortTextSpelling(describe[i].typ.value)
    ensures ConversionScript(db, tbl, dest, describe, indexRows).Ok? ==>
      ConversionScript(db, tbl, dest, describe, indexRows).value == ScriptText(db, tbl, dest, ColumnsOf(describe), [])
  {
    var cols := ColumnsOf(describe);
    forall x ensures !Triggers(cols, x) {
      TriggersIff(describe, x);
    }
    if Resolve(indexRows, cols).Ok? {
      var m := Resolve(indexRows, cols).value;
      if |m| > 0 {
        assert false;
      }
    }
  }
}
