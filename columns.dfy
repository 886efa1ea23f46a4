/**
 * The first loop of `CreateConversionScriptForTable`: it walks the `DESCRIBE`
 * rows in order and records, for every column whose type is convertible, the
 * pair (source literal, binary literal) under the column's name.
 */
module Columns {
  import opened Wrappers
  import opened OrderedMap
  import opened TypeMap

  /** One `DESCRIBE` row; a field that is not a string reads as null. */
  datatype DescribeRow = DescribeRow(field: Option<string>, typ: Option<string>)

  /** `columnsToConvert`: column name to its conversion, in insertion order. */
  type ColumnMap = seq<(string, Conversion)>

  /** The entry a row contributes, if any: rows with a null name or type are skipped. */
  function Converted(row: DescribeRow): Option<(string, Conversion)> {
    if row.field.None? || row.typ.None? then None
    else match Classify(row.typ.value)
      case None => None
      case Some(c) => Some((row.field.value, c))
  }

  /** `Dictionary.Add` throws on a repeated key: the loop runs to completion
      exactly when no two converted rows share a name. */
  predicate UniqueConvertedNames(rows: seq<DescribeRow>) {
    forall i, j :: 0 <= i < j < |rows| && Converted(rows[i]).Some? && Converted(rows[j]).Some? ==>
      rows[i].field != rows[j].field
  }

  /** The entries contributed by the rows, in row order. */
  function ColumnsOf(rows: seq<DescribeRow>): (r: ColumnMap)
    ensures |r| <= |rows|
  {
    if rows == [] then []
    else
      var prev := ColumnsOf(rows[..|rows| - 1]);
      match Converted(rows[|rows| - 1])
      case None => prev
      case Some(e) => prev + [e]
  }

  /** An entry is recorded exactly when some row contributes it. */
  lemma ColumnsOfMembers(rows: seq<DescribeRow>, e: (string, Conversion))
    ensures e in ColumnsOf(rows) <==> exists i :: 0 <= i < |rows| && Converted(rows[i]) == Some(e)
  {
    if e in ColumnsOf(rows) {
      var p :| 0 <= p < |ColumnsOf(rows)| && ColumnsOf(rows)[p] == e;
      var i := ColumnsOfSource(rows, p);
    }
    if exists i :: 0 <= i < |rows| && Converted(rows[i]) == Some(e) {
      var i :| 0 <= i < |rows| && Converted(rows[i]) == Some(e);
      var p := ColumnsOfAt(rows, i);
    }
  }

  /** Every recorded entry comes from some row. */
  lemma {:induction false} ColumnsOfSource(rows: seq<DescribeRow>, p: nat) returns (i: nat)
    requires p < |ColumnsOf(rows)|
    ensures i < |rows| && Converted(rows[i]) == Some(ColumnsOf(rows)[p])
  {
    var init := rows[..|rows| - 1];
    var prev := ColumnsOf(init);
    if p < |prev| {
      ColumnsOfGrows(rows);
      i := ColumnsOfSource(init, p);
      assert rows[i] == init[i];
    } else {
      i := |rows| - 1;
    }
  }

  /** The entries of all rows but the last are a prefix of the entries of all rows. */
  lemma ColumnsOfGrows(rows: seq<DescribeRow>)
    requires rows != []
    ensures ColumnsOf(rows[..|rows| - 1]) <= ColumnsOf(rows)
  {
  }

  /** With distinct converted names, no column name is recorded twice. */
  lemma {:induction false} ColumnsOfDistinct(rows: seq<DescribeRow>)
    requires UniqueConvertedNames(rows)
    ensures DistinctKeys(ColumnsOf(rows))
  {
    if rows != [] {
      var init := rows[..|rows| - 1];
      var last := rows[|rows| - 1];
      assert UniqueConvertedNames(init) by {
        assert forall i :: 0 <= i < |init| ==> init[i] == rows[i];
      }
      ColumnsOfDistinct(init);
      var prev := ColumnsOf(init);
      if Converted(last).Some? {
        forall p | 0 <= p < |prev| ensures prev[p].0 != Converted(last).value.0 {
          assert prev[p] in prev;
          ColumnsOfMembers(init, prev[p]);
          var i :| 0 <= i < |init| && Converted(init[i]) == Some(prev[p]);
          assert init[i] == rows[i];
        }
      }
    }
  }

  /** The entries recorded from the first `k` rows are a prefix of all the entries. */
  lemma {:induction false} ColumnsOfPrefix(rows: seq<DescribeRow>, k: nat)
    requires k <= |rows|
    ensures ColumnsOf(rows[..k]) <= ColumnsOf(rows)
  {
    if k < |rows| {
      var init := rows[..|rows| - 1];
      assert rows[..k] == init[..k];
      ColumnsOfPrefix(init, k);
    } else {
      assert rows[..k] == rows;
    }
  }

  lemma ColumnsOfLast(rows: seq<DescribeRow>, i: nat)
    requires i < |rows| && Converted(rows[i]).Some?
    ensures |ColumnsOf(rows[..i + 1])| > 0
    ensures ColumnsOf(rows[..i + 1]) == ColumnsOf(rows[..i]) + [Converted(rows[i]).value]
  {
    assert rows[..i + 1][..i] == rows[..i];
  }

  /** A row that converts has its entry right after the entries of the rows before it. */
  lemma ColumnsOfAt(rows: seq<DescribeRow>, i: nat) returns (p: nat)
    requires i < |rows| && Converted(rows[i]).Some?
    ensures p == |ColumnsOf(rows[..i])| < |ColumnsOf(rows)|
    ensures ColumnsOf(rows)[p] == Converted(rows[i]).value
  {
    ColumnsOfLast(rows, i);
    ColumnsOfPrefix(rows, i + 1);
    p := |ColumnsOf(rows[..i])|;
    assert ColumnsOf(rows)[p] == ColumnsOf(rows[..i + 1])[p];
  }

  /** A converting row before position `j` adds one entry to the rows before `j`. */
  lemma ColumnsOfCount(rows: seq<DescribeRow>, i: nat, j: nat)
    requires i < j <= |rows| && Converted(rows[i]).Some?
    ensures |ColumnsOf(rows[..i])| < |ColumnsOf(rows[..j])|
  {
    ColumnsOfLast(rows, i);
    assert rows[..j][..i + 1] == rows[..i + 1];
    ColumnsOfPrefix(rows[..j], i + 1);
  }

  /** Recording keeps row order: rows i < j that both convert appear in that order. */
  lemma ColumnsOfOrder(rows: seq<DescribeRow>, i: nat, j: nat)
    requires i < j < |rows|
    requires Converted(rows[i]).Some? && Converted(rows[j]).Some?
    ensures exists p, q ::
              && 0 <= p < q < |ColumnsOf(rows)|
              && ColumnsOf(rows)[p] == Converted(rows[i]).value
              && ColumnsOf(rows)[q] == Converted(rows[j]).value
  {
    var p := ColumnsOfAt(rows, i);
    var q := ColumnsOfAt(rows, j);
    ColumnsOfCount(rows, i, j);
  }

  /** The loop of the source: each convertible row is added under its name. */
  method CollectColumns(rows: seq<DescribeRow>) returns (cols: ColumnMap)
    requires UniqueConvertedNames(rows)
    ensures cols == ColumnsOf(rows)
    ensures DistinctKeys(cols)
  {
    cols := [];
    for i := 0 to |rows|
      invariant cols == ColumnsOf(rows[..i])
    {
      var row := rows[i];
      assert rows[..i + 1][..i] == rows[..i];
      if row.field.Some? && row.typ.Some? {
        var c := Classify(row.typ.value);
        if c.Some? {
          assert !HasKey(cols, row.field.value) by {
            ColumnsOfLast(rows, i);
            assert UniqueConvertedNames(rows[..i + 1]) by {
              assert forall k :: 0 <= k <= i ==> rows[..i + 1][k] == rows[k];
            }
            ColumnsOfDistinct(rows[..i + 1]);
            ColumnsOfDistinct(rows[..i]);
            DistinctSnoc(cols, (row.field.value, c.value));
          }
          cols := cols + [(row.field.value, c.value)];
        }
      }
    }
    assert rows[..|rows|] == rows;
    ColumnsOfDistinct(rows);
  }
}
