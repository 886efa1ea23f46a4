/**
 * Concrete tables run through the model of `CreateConversionScriptForTable`.
 * Each shows a consequence of the code as written: which indexes are rebuilt,
 * with which members, and when the second index loop throws.
 */
module Scenarios {
  import opened Wrappers
  import opened Errors
  import opened OrderedMap
  import opened TypeMap
  import opened Columns
  import opened Indexes
  import opened Converter

  /** `DESCRIBE` rows for an `id int(11)` column followed by one more column. */
  function TwoColumns(name: string, typ: string): seq<DescribeRow> {
    [DescribeRow(Some("id"), Some("int(11)")), DescribeRow(Some(name), Some(typ))]
  }

  /** `ColumnsOf` on two rows, the first of which is not converted. */
  lemma ColumnsOfSecond(describe: seq<DescribeRow>, c: Conversion)
    requires |describe| == 2 && Converted(describe[0]).None?
    requires describe[1].field.Some? && describe[1].typ.Some? && Classify(describe[1].typ.value) == Some(c)
    ensures ColumnsOf(describe) == [(describe[1].field.value, c)]
  {
    assert describe[..1][..0] == [];
    assert ColumnsOf(describe[..1]) == [];
  }

  /** Both index loops' first-pass state after two usable rows. */
  lemma TwoRowsFirstPass(rows: seq<IndexRow>, cols: ColumnMap)
    requires |rows| == 2 && Buffered(rows[0]).Some? && Buffered(rows[1]).Some?
    ensures BufferOf(rows) == [Buffered(rows[0]).value, Buffered(rows[1]).value]
    ensures FlaggedOf(rows, cols) ==
      FlagStep(FlagStep([], cols, Buffered(rows[0]).value), cols, Buffered(rows[1]).value)
  {
    var init := rows[..1];
    assert init[..0] == [] && init[0] == rows[0];
    assert BufferOf(init) == [Buffered(rows[0]).value];
    assert FlaggedOf(init, cols) == FlagStep([], cols, Buffered(rows[0]).value);
  }

  /** A `varchar(50)` column with a unique index on it: the column is converted,
      but its type is not one of the rebuild literals, so the index is never
      flagged and the lookup in the second loop throws. */
  lemma VarCharIndexThrows()
    ensures ConversionScript("shop", "users", "utf8mb4", TwoColumns("name", "varchar(50)"),
              [IndexRow(Some("PRIMARY"), Some("id"), Some("BTREE"), 0),
               IndexRow(Some("idx_name"), Some("name"), Some("BTREE"), 0)])
            == Err(IndexNotFlagged("idx_name"))
  {
    var describe := TwoColumns("name", "varchar(50)");
    var rows := [IndexRow(Some("PRIMARY"), Some("id"), Some("BTREE"), 0),
                 IndexRow(Some("idx_name"), Some("name"), Some("BTREE"), 0)];
    OtherTypesNotConverted();
    assert IsDigits("50");
    assert Declared(VarChar, false, "50") == "varchar(50)";
    ClassifyComplete(VarChar, false, "50");
    var c := Conversion("varchar(50)", "VARBINARY(50)");
    assert Expected(VarChar, false, "50") == c;
    ColumnsOfSecond(describe, c);
    var cols := [("name", c)];
    assert !Triggers(cols, "name") && !Triggers(cols, "id");
    TwoRowsFirstPass(rows, cols);
    var b0, b1 := BufferedRow("PRIMARY", "id", Unique, 0), BufferedRow("idx_name", "name", Unique, 0);
    assert [b0, b1][1..] == [b1];
    assert cols[0].0 == "name";
    assert !HasKey(cols, "id") && HasKey(cols, "name");
    assert Backfill([b0, b1], cols, []) == Backfill([b1], cols, []);
  }

  /** A fulltext index on a `longtext` column: `LONGTEXT` is compared against the
      literal `LOGTEXT`, so this index is not flagged either and the conversion throws. */
  lemma LongTextIndexThrows()
    ensures ConversionScript("shop", "posts", "utf8mb4", TwoColumns("body", "longtext"),
              [IndexRow(Some("ft_body"), Some("body"), Some("FULLTEXT"), 1)])
            == Err(IndexNotFlagged("ft_body"))
  {
    var describe := TwoColumns("body", "longtext");
    var rows := [IndexRow(Some("ft_body"), Some("body"), Some("FULLTEXT"), 1)];
    OtherTypesNotConverted();
    var c := Conversion("LONGTEXT", "LOGBLOB");
    ColumnsOfSecond(describe, c);
    var cols := [("body", c)];
    assert !Triggers(cols, "body");
    assert rows[..0] == [];
    assert FlaggedOf(rows, cols) == [];
    assert BufferOf(rows) == [BufferedRow("ft_body", "body", FullText, 1)];
    assert cols[0].0 == "body";
    assert HasKey(cols, "body");
  }

  /** An index over `(id, body)` with `body` a `text` column is rebuilt over
      `body` alone: only converted columns are appended to the member list. */
  lemma UnconvertedMemberDropped()
    ensures Resolve([IndexRow(Some("idx"), Some("id"), Some("BTREE"), 1),
                     IndexRow(Some("idx"), Some("body"), Some("BTREE"), 1)],
                    ColumnsOf(TwoColumns("body", "text")))
            == Ok([("idx", IndexEntry(["body"], Plain))])
  {
    var describe := TwoColumns("body", "text");
    var rows := [IndexRow(Some("idx"), Some("id"), Some("BTREE"), 1),
                 IndexRow(Some("idx"), Some("body"), Some("BTREE"), 1)];
    OtherTypesNotConverted();
    var c := Conversion("TEXT", "BLOB");
    ColumnsOfSecond(describe, c);
    var cols := [("body", c)];
    assert cols[0].0 == "body" && IsRebuildLiteral(cols[0].1.source);
    assert Triggers(cols, "body") && !Triggers(cols, "id");
    var b0, b1 := BufferedRow("idx", "id", Plain, 1), BufferedRow("idx", "body", Plain, 1);
    TwoRowsFirstPass(rows, cols);
    var flagged := [("idx", IndexEntry(["body"], Plain))];
    assert FlagStep([], cols, b0) == [];
    assert FlaggedOf(rows, cols) == flagged;
    assert [b0, b1][1..] == [b1];
    assert !HasKey(cols, "id") && HasKey(cols, "body");
    assert Find(flagged, "idx") == Some(0);
    assert AddMember(flagged, 0, "body") == flagged;
    assert Backfill([b0, b1], cols, flagged) == Backfill([b1], cols, flagged);
    assert Backfill([b1], cols, flagged) == Backfill([], cols, flagged);
  }

  /** An index over `(v, t)` with `v` a `varchar(5)` and `t` a `text` column is
      rebuilt over `(t, v)`: the flagging column comes first, the others follow. */
  lemma MembersReordered()
    ensures Resolve([IndexRow(Some("idx"), Some("v"), Some("BTREE"), 1),
                     IndexRow(Some("idx"), Some("t"), Some("BTREE"), 1)],
                    [("v", Conversion("varchar(5)", "VARBINARY(5)")), ("t", Conversion("TEXT", "BLOB"))])
            == Ok([("idx", IndexEntry(["t", "v"], Plain))])
  {
    var rows := [IndexRow(Some("idx"), Some("v"), Some("BTREE"), 1),
                 IndexRow(Some("idx"), Some("t"), Some("BTREE"), 1)];
    var cols := [("v", Conversion("varchar(5)", "VARBINARY(5)")), ("t", Conversion("TEXT", "BLOB"))];
    assert cols[1].0 == "t" && IsRebuildLiteral(cols[1].1.source);
    assert Triggers(cols, "t");
    assert !IsRebuildLiteral(cols[0].1.source);
    assert !Triggers(cols, "v");
    var b0, b1 := BufferedRow("idx", "v", Plain, 1), BufferedRow("idx", "t", Plain, 1);
    TwoRowsFirstPass(rows, cols);
    assert FlagStep([], cols, b0) == [];
    assert FlaggedOf(rows, cols) == [("idx", IndexEntry(["t"], Plain))];
    ReorderedSecondPass();
  }

  /** The second loop of `MembersReordered`: `v` is appended behind `t`, and `t` is
      already a member. */
  lemma ReorderedSecondPass()
    ensures Backfill([BufferedRow("idx", "v", Plain, 1), BufferedRow("idx", "t", Plain, 1)],
                     [("v", Conversion("varchar(5)", "VARBINARY(5)")), ("t", Conversion("TEXT", "BLOB"))],
                     [("idx", IndexEntry(["t"], Plain))])
            == Ok([("idx", IndexEntry(["t", "v"], Plain))])
  {
    var cols := [("v", Conversion("varchar(5)", "VARBINARY(5)")), ("t", Conversion("TEXT", "BLOB"))];
    var b0, b1 := BufferedRow("idx", "v", Plain, 1), BufferedRow("idx", "t", Plain, 1);
    var flagged := [("idx", IndexEntry(["t"], Plain))];
    assert [b0, b1][1..] == [b1];
    assert cols[0].0 == "v" && cols[1].0 == "t";
    assert HasKey(cols, "v") && HasKey(cols, "t");
    assert Find(flagged, "idx") == Some(0);
    var grown := [("idx", IndexEntry(["t", "v"], Plain))];
    assert "v" !in flagged[0].1.members && ["t"] + ["v"] == ["t", "v"];
    assert AddMember(flagged, 0, "v") == grown;
    assert Find(grown, "idx") == Some(0);
    assert "t" in grown[0].1.members;
    assert AddMember(grown, 0, "t") == grown;
    assert Backfill([b0, b1], cols, flagged) == Backfill([b1], cols, grown);
    assert Backfill([b1], cols, grown) == Backfill([], cols, grown);
  }
}
