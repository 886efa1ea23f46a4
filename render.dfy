/**
 * Rendering of the conversion script.  The source builds each phase by
 * appending `ALTER TABLE ... \n`, folding every item into the text followed
 * by `,\n` (LINQ `Aggregate`), cutting the last two characters with
 * `Remove(Length - 2)`, and appending `;\n\n`.  The model proves that this
 * yields the items joined by `,\n`.
 */
module Render {
  import opened TypeMap
  import opened Columns
  import opened Indexes

  /** `items` with `sep` between consecutive ones. */
  function Join(items: seq<string>, sep: string): string {
    if |items| == 0 then ""
    else if |items| == 1 then items[0]
    else Join(items[..|items| - 1], sep) + sep + items[|items| - 1]
  }

  /** `lines.Aggregate(seed, (current, line) => current + line + sep)`. */
  function Aggregate(seed: string, lines: seq<string>, sep: string): string
    decreases |lines|
  {
    if lines == [] then seed else Aggregate(seed + lines[0] + sep, lines[1..], sep)
  }

  lemma {:induction false} AggregateSnoc(seed: string, lines: seq<string>, x: string, sep: string)
    ensures Aggregate(seed, lines + [x], sep) == Aggregate(seed, lines, sep) + x + sep
    decreases |lines|
  {
    if lines != [] {
      assert (lines + [x])[1..] == lines[1..] + [x];
      AggregateSnoc(seed + lines[0] + sep, lines[1..], x, sep);
    }
  }

  /** A non-empty fold is the joined lines followed by one trailing separator... */
  lemma {:induction false} AggregateIsJoin(seed: string, lines: seq<string>, sep: string)
    requires |lines| > 0
    ensures Aggregate(seed, lines, sep) == seed + Join(lines, sep) + sep
    decreases |lines|
  {
    var init, last := lines[..|lines| - 1], lines[|lines| - 1];
    assert lines == init + [last];
    AggregateSnoc(seed, init, last, sep);
    if |init| > 0 {
      AggregateIsJoin(seed, init, sep);
    }
  }

  /** ... so cutting `|sep|` characters off its end removes exactly that separator. */
  lemma RemoveTrailingSeparator(seed: string, lines: seq<string>, sep: string)
    requires |lines| > 0
    ensures |Aggregate(seed, lines, sep)| >= |sep|
    ensures Aggregate(seed, lines, sep)[..|Aggregate(seed, lines, sep)| - |sep|] == seed + Join(lines, sep)
  {
    AggregateIsJoin(seed, lines, sep);
  }

  // ---- The lines of each phase ----

  function DropLine(index: string): string {
    "    DROP INDEX `" + index + "`"
  }

  function BinaryLine(column: string, c: Conversion): string {
    "    MODIFY `" + column + "` " + c.binary
  }

  function CharsetLine(column: string, c: Conversion, dest: string): string {
    "    MODIFY `" + column + "` " + c.source + " CHARACTER SET " + dest
  }

  /** `UNIQUE ` or `FULLTEXT ` before `INDEX`, nothing for a plain index. */
  function KindPrefix(k: Kind): string {
    match k
    case Unique => "UNIQUE "
    case FullText => "FULLTEXT "
    case Plain => ""
  }

  /** Each member wrapped in backticks, in order. */
  function Quoted(members: seq<string>): seq<string> {
    seq(|members|, i requires 0 <= i < |members| => "`" + members[i] + "`")
  }

  /** The `ADD` line of one index: the members are folded in as `` `m`, `` and the
      last comma is cut with `Remove(Length - 1)`, leaving them comma-separated. */
  function AddLine(index: string, e: IndexEntry): (r: string)
    requires |e.members| > 0
    ensures r == "    ADD " + KindPrefix(e.kind) + "INDEX `" + index + "` (" + Join(Quoted(e.members), ",") + ")"
  {
    var head := "    ADD " + KindPrefix(e.kind) + "INDEX `" + index + "` (";
    var current := Aggregate(head, Quoted(e.members), ",");
    RemoveTrailingSeparator(head, Quoted(e.members), ",");
    current[..|current| - 1] + ")"
  }

  /** Every flagged index has at least its triggering column. */
  predicate MembersNonEmpty(idx: IndexMap) {
    forall p :: 0 <= p < |idx| ==> |idx[p].1.members| > 0
  }

  function DropLines(idx: IndexMap): seq<string> {
    seq(|idx|, p requires 0 <= p < |idx| => DropLine(idx[p].0))
  }

  function BinaryLines(cols: ColumnMap): seq<string> {
    seq(|cols|, p requires 0 <= p < |cols| => BinaryLine(cols[p].0, cols[p].1))
  }

  function CharsetLines(cols: ColumnMap, dest: string): seq<string> {
    seq(|cols|, p requires 0 <= p < |cols| => CharsetLine(cols[p].0, cols[p].1, dest))
  }

  function AddLines(idx: IndexMap): seq<string>
    requires MembersNonEmpty(idx)
  {
    seq(|idx|, p requires 0 <= p < |idx| => AddLine(idx[p].0, idx[p].1))
  }

  // ---- The script ----

  function AlterTable(db: string, tbl: string): string {
    "ALTER TABLE `" + db + "`.`" + tbl + "`"
  }

  /** The comment line and the table-level charset statement that open every script. */
  function Header(db: string, tbl: string, dest: string): string {
    "-- Table `" + db + "`.`" + tbl + "`\n\n" + AlterTable(db, tbl) + " CHARACTER SET " + dest + ";\n"
  }

  /** One bulk statement: the items joined by `,\n`. */
  function Phase(alter: string, lines: seq<string>): string {
    alter + " \n" + Join(lines, ",\n") + ";\n\n"
  }

  /** The phases in their fixed order: charset, drop, to-binary, to-destination-charset,
      add.  The index phases appear only when an index is rebuilt, the column phases
      only when a column is converted. */
  function ScriptText(db: string, tbl: string, dest: string, cols: ColumnMap, idx: IndexMap): (r: string)
    requires MembersNonEmpty(idx)
    ensures Header(db, tbl, dest) <= r
  {
    var alter := AlterTable(db, tbl);
    var header := Header(db, tbl, dest);
    var dropped := if |idx| > 0 then header + Phase(alter, DropLines(idx)) else header;
    var modified := if |cols| > 0
      then dropped + Phase(alter, BinaryLines(cols)) + Phase(alter, CharsetLines(cols, dest))
      else dropped;
    if |idx| > 0 then modified + Phase(alter, AddLines(idx)) else modified
  }

  /** Appends one non-empty phase the way the source does. */
  method AppendPhase(script: string, alter: string, lines: seq<string>) returns (r: string)
    requires |lines| > 0
    ensures r == script + Phase(alter, lines)
  {
    r := script + alter + " \n";
    r := Aggregate(r, lines, ",\n");
    RemoveTrailingSeparator(script + alter + " \n", lines, ",\n");
    r := r[..|r| - 2];
    r := r + ";\n\n";
  }

  /** The assembly at the end of `CreateConversionScriptForTable`. */
  method RenderScript(db: string, tbl: string, dest: string, cols: ColumnMap, idx: IndexMap) returns (script: string)
    requires MembersNonEmpty(idx)
    ensures script == ScriptText(db, tbl, dest, cols, idx)
  {
    var alterTable := AlterTable(db, tbl);
    script := "-- Table `" + db + "`.`" + tbl + "`\n\n" + alterTable + " CHARACTER SET " + dest + ";\n";
    assert script == Header(db, tbl, dest);
    if |idx| > 0 {
      script := AppendPhase(script, alterTable, DropLines(idx));
    }
    ghost var dropped := script;
    if |cols| > 0 {
      script := AppendPhase(script, alterTable, BinaryLines(cols));
      script := AppendPhase(script, alterTable, CharsetLines(cols, dest));
    }
    assert script == if |cols| > 0
      then dropped + Phase(alterTable, BinaryLines(cols)) + Phase(alterTable, CharsetLines(cols, dest))
      else dropped;
    if |idx| > 0 {
      script := AppendPhase(script, alterTable, AddLines(idx));
    }
  }

  /** With nothing to convert the script is the header alone. */
  lemma NothingToConvert(db: string, tbl: string, dest: string)
    ensures ScriptText(db, tbl, dest, [], []) ==
      "-- Table `" + db + "`.`" + tbl + "`\n\nALTER TABLE `" + db + "`.`" + tbl + "` CHARACTER SET " + dest + ";\n"
  {
  }
}
