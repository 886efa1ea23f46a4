/**
 * Index resolution in `CreateConversionScriptForTable`.  A first loop over
 * the `SHOW INDEXES` rows buffers every usable row and flags an index the
 * first time one of its columns is a converted TEXT-family column; a second
 * loop over the buffer appends the other converted columns to the flagged
 * indexes' member lists.
 */
module Indexes {
  import opened Wrappers
  import opened Errors
  import opened OrderedMap
  import opened TypeMap
  import opened Columns

  /** One `SHOW INDEXES` row: `Key_name`, `Column_name`, `Index_type`, `Non_unique`. */
  datatype IndexRow = IndexRow(keyName: Option<string>, columnName: Option<string>, indexType: Option<string>, nonUnique: int)

  /** The tag an index is re-created with: `UNIQUE`, `FULLTEXT`, or none. */
  datatype Kind = Plain | Unique | FullText

  /** A unique index is `UNIQUE` whatever its type; otherwise only `FULLTEXT` is kept. */
  function KindOf(nonUnique: int, indexType: string): (k: Kind)
    ensures k == Unique <==> nonUnique == 0
    ensures k == FullText <==> nonUnique != 0 && indexType == "FULLTEXT"
  {
    if nonUnique == 0 then Unique
    else if indexType != "FULLTEXT" then Plain
    else FullText
  }

  /** An entry of `indexesBuffer`. */
  datatype BufferedRow = BufferedRow(index: string, column: string, kind: Kind, nonUnique: int)

  /** The buffered form of a row; rows with a null name, column or type are skipped. */
  function Buffered(row: IndexRow): Option<BufferedRow> {
    if row.keyName.None? || row.columnName.None? || row.indexType.None? then None
    else Some(BufferedRow(row.keyName.value, row.columnName.value,
                          KindOf(row.nonUnique, row.indexType.value), row.nonUnique))
  }

  /** An entry of `indexesToConvert`: the member list and the kind. */
  datatype IndexEntry = IndexEntry(members: seq<string>, kind: Kind)

  type IndexMap = seq<(string, IndexEntry)>

  /** The source literals that make an index need rebuilding.  `LOGTEXT` is
      what the source compares against; no conversion has that literal. */
  predicate IsRebuildLiteral(s: string) {
    s == "TINYTEXT" || s == "MEDIUMTEXT" || s == "LOGTEXT" || s == "TEXT"
  }

  /** The inner loop over `columnsToConvert` finds a converted column of this
      name whose source literal is a rebuild literal. */
  predicate Triggers(cols: ColumnMap, column: string) {
    exists j :: 0 <= j < |cols| && cols[j].0 == column && IsRebuildLiteral(cols[j].1.source)
  }

  /** `indexesBuffer` after the first loop: the usable rows, in order. */
  function BufferOf(rows: seq<IndexRow>): (r: seq<BufferedRow>)
    ensures |r| <= |rows|
  {
    if rows == [] then []
    else
      var prev := BufferOf(rows[..|rows| - 1]);
      match Buffered(rows[|rows| - 1])
      case None => prev
      case Some(b) => prev + [b]
  }

  /** One row's effect on `indexesToConvert` in the first loop. */
  function FlagStep(flagged: IndexMap, cols: ColumnMap, b: BufferedRow): IndexMap {
    if Triggers(cols, b.column) && !HasKey(flagged, b.index)
    then flagged + [(b.index, IndexEntry([b.column], b.kind))]
    else flagged
  }

  /** `indexesToConvert` after the first loop. */
  function FlaggedOf(rows: seq<IndexRow>, cols: ColumnMap): (r: IndexMap)
    ensures |r| <= |BufferOf(rows)|
  {
    if rows == [] then []
    else
      var prev := FlaggedOf(rows[..|rows| - 1], cols);
      match Buffered(rows[|rows| - 1])
      case None => prev
      case Some(b) => FlagStep(prev, cols, b)
  }

  /** Row `row` flags index `n`. */
  predicate Flags(row: IndexRow, cols: ColumnMap, n: string) {
    Buffered(row).Some? && Buffered(row).value.index == n && Triggers(cols, Buffered(row).value.column)
  }

  /** Some row flags index `n`. */
  ghost predicate Flagged(rows: seq<IndexRow>, cols: ColumnMap, n: string) {
    exists i :: 0 <= i < |rows| && Flags(rows[i], cols, n)
  }

  /** The first loop of the source, with its inner loop over the converted columns. */
  method FirstPass(rows: seq<IndexRow>, cols: ColumnMap) returns (buffer: seq<BufferedRow>, flagged: IndexMap)
    ensures buffer == BufferOf(rows)
    ensures flagged == FlaggedOf(rows, cols)
  {
    buffer, flagged := [], [];
    for i := 0 to |rows|
      invariant buffer == BufferOf(rows[..i])
      invariant flagged == FlaggedOf(rows[..i], cols)
    {
      var row := rows[i];
      assert rows[..i + 1][..i] == rows[..i];
      if row.keyName.Some? && row.columnName.Some? && row.indexType.Some? {
        var name, column := row.keyName.value, row.columnName.value;
        var kind := KindOf(row.nonUnique, row.indexType.value);
        buffer := buffer + [BufferedRow(name, column, kind, row.nonUnique)];
        ghost var before := flagged;
        var j := 0;
        while j < |cols|
          invariant 0 <= j <= |cols|
          invariant flagged == before
          invariant forall k :: 0 <= k < j ==>
            !(cols[k].0 == column && IsRebuildLiteral(cols[k].1.source) && !HasKey(flagged, name))
        {
          if column == cols[j].0 && IsRebuildLiteral(cols[j].1.source) && Find(flagged, name).None? {
            flagged := flagged + [(name, IndexEntry([column], kind))];
            break;
          }
          j := j + 1;
        }
        assert flagged == FlagStep(before, cols, BufferedRow(name, column, kind, row.nonUnique));
      }
    }
    assert rows[..|rows|] == rows;
  }

  // ---- Properties of the first loop ----

  /** The buffer holds exactly the usable rows. */
  lemma {:induction false} BufferMembers(rows: seq<IndexRow>, b: BufferedRow)
    ensures b in BufferOf(rows) <==> exists i :: 0 <= i < |rows| && Buffered(rows[i]) == Some(b)
  {
    if rows != [] {
      var init := rows[..|rows| - 1];
      BufferMembers(init, b);
      assert forall i :: 0 <= i < |init| ==> init[i] == rows[i];
      if exists i :: 0 <= i < |rows| && Buffered(rows[i]) == Some(b) {
        var i :| 0 <= i < |rows| && Buffered(rows[i]) == Some(b);
        if i < |init| {
          assert Buffered(init[i]) == Some(b);
        }
      }
    }
  }

  /** The buffer is the usable rows in row order: its `k`-th entry comes from row
      `pos[k]`, the positions increase, and every usable row has one. */
  lemma {:induction false} BufferPositions(rows: seq<IndexRow>) returns (pos: seq<nat>)
    ensures |pos| == |BufferOf(rows)|
    ensures forall k :: 0 <= k < |pos| ==> pos[k] < |rows| && Buffered(rows[pos[k]]) == Some(BufferOf(rows)[k])
    ensures forall k, l :: 0 <= k < l < |pos| ==> pos[k] < pos[l]
    ensures forall i :: 0 <= i < |rows| && Buffered(rows[i]).Some? ==> i in pos
  {
    if rows == [] {
      pos := [];
    } else {
      var init := rows[..|rows| - 1];
      pos := BufferPositions(init);
      assert forall i :: 0 <= i < |init| ==> init[i] == rows[i];
      if Buffered(rows[|rows| - 1]).Some? {
        pos := pos + [|rows| - 1];
      }
    }
  }

  /** A flagging column is always a converted one. */
  lemma TriggerIsConverted(cols: ColumnMap, column: string)
    requires Triggers(cols, column)
    ensures HasKey(cols, column)
  {
  }

  /** An index is flagged exactly when one of its usable rows names a converted
      column whose source literal is TINYTEXT, MEDIUMTEXT, LOGTEXT or TEXT. */
  lemma {:induction false} FlaggedKeys(rows: seq<IndexRow>, cols: ColumnMap, n: string)
    ensures HasKey(FlaggedOf(rows, cols), n) <==> Flagged(rows, cols, n)
  {
    if rows != [] {
      var init, last := rows[..|rows| - 1], rows[|rows| - 1];
      FlaggedKeys(init, cols, n);
      assert forall i :: 0 <= i < |init| ==> init[i] == rows[i];
      var prev := FlaggedOf(init, cols);
      if Buffered(last).Some? {
        var b := Buffered(last).value;
        if Triggers(cols, b.column) && !HasKey(prev, b.index) {
          HasKeySnoc(prev, (b.index, IndexEntry([b.column], b.kind)), n);
        }
      }
      if Flagged(rows, cols, n) {
        var i :| 0 <= i < |rows| && Flags(rows[i], cols, n);
        if i < |init| {
          assert Flags(init[i], cols, n);
        }
      }
    }
  }

  /** No index is flagged twice. */
  lemma {:induction false} FlaggedDistinct(rows: seq<IndexRow>, cols: ColumnMap)
    ensures DistinctKeys(FlaggedOf(rows, cols))
  {
    if rows != [] {
      var init, last := rows[..|rows| - 1], rows[|rows| - 1];
      FlaggedDistinct(init, cols);
      var prev := FlaggedOf(init, cols);
      if Buffered(last).Some? {
        var b := Buffered(last).value;
        if Triggers(cols, b.column) && !HasKey(prev, b.index) {
          DistinctSnoc(prev, (b.index, IndexEntry([b.column], b.kind)));
        }
      }
    }
  }

  /** Each flagged index starts as the single column of the first row that
      flagged it, with that row's kind. */
  lemma {:induction false} FlaggedEntry(rows: seq<IndexRow>, cols: ColumnMap, p: nat) returns (i: nat)
    requires p < |FlaggedOf(rows, cols)|
    ensures i < |rows| && Flags(rows[i], cols, FlaggedOf(rows, cols)[p].0)
    ensures forall k :: 0 <= k < i ==> !Flags(rows[k], cols, FlaggedOf(rows, cols)[p].0)
    ensures FlaggedOf(rows, cols)[p].1 == IndexEntry([Buffered(rows[i]).value.column], Buffered(rows[i]).value.kind)
  {
    var init, last := rows[..|rows| - 1], rows[|rows| - 1];
    var prev := FlaggedOf(init, cols);
    assert forall k :: 0 <= k < |init| ==> init[k] == rows[k];
    if p < |prev| {
      i := FlaggedEntry(init, cols, p);
    } else {
      i := |rows| - 1;
      var n := FlaggedOf(rows, cols)[p].0;
      FlaggedKeys(init, cols, n);
      forall k | 0 <= k < i ensures !Flags(rows[k], cols, n) {
        assert init[k] == rows[k];
      }
    }
  }

  /** Row `i` is the first row that flags index `n`. */
  predicate FirstFlags(rows: seq<IndexRow>, cols: ColumnMap, i: nat, n: string) {
    i < |rows| && Flags(rows[i], cols, n) && forall k :: 0 <= k < i ==> !Flags(rows[k], cols, n)
  }

  /** The flagged indexes come in the order of their first flagging rows. */
  lemma {:induction false} FlaggedOrder(rows: seq<IndexRow>, cols: ColumnMap, p: nat, q: nat) returns (i: nat, j: nat)
    requires p < q < |FlaggedOf(rows, cols)|
    ensures i < j < |rows|
    ensures FirstFlags(rows, cols, i, FlaggedOf(rows, cols)[p].0)
    ensures FirstFlags(rows, cols, j, FlaggedOf(rows, cols)[q].0)
  {
    var init := rows[..|rows| - 1];
    var prev, all := FlaggedOf(init, cols), FlaggedOf(rows, cols);
    assert forall k :: 0 <= k < |init| ==> init[k] == rows[k];
    assert all[p] == prev[p];
    if q < |prev| {
      assert all[q] == prev[q];
      i, j := FlaggedOrder(init, cols, p, q);
    } else {
      // Entry `q` is the one the last row adds.
      i := FlaggedEntry(init, cols, p);
      j := |rows| - 1;
      var n := all[q].0;
      FlaggedKeys(init, cols, n);
      forall k | 0 <= k < j ensures !Flags(rows[k], cols, n) {
        assert init[k] == rows[k];
      }
    }
  }

  // ---- The second loop ----

  /** Appending a column to the member list at position `p`, unless it is already there. */
  function AddMember(acc: IndexMap, p: nat, column: string): (r: IndexMap)
    requires p < |acc|
    ensures |r| == |acc|
    ensures forall q :: 0 <= q < |r| ==> r[q].0 == acc[q].0 && r[q].1.kind == acc[q].1.kind
  {
    var e := acc[p].1;
    if column in e.members then acc
    else acc[p := (acc[p].0, IndexEntry(e.members + [column], e.kind))]
  }

  /** The second loop, from a given state of `indexesToConvert`: each buffered row
      whose column is converted appends that column to its index, and an index
      that was never flagged makes the lookup throw. */
  function Backfill(buf: seq<BufferedRow>, cols: ColumnMap, acc: IndexMap): (r: Result<IndexMap, Error>)
    ensures r.Ok? ==> |r.value| == |acc|
    ensures r.Err? ==> r.error.IndexNotFlagged?
    decreases |buf|
  {
    if buf == [] then Ok(acc)
    else
      var b := buf[0];
      if !HasKey(cols, b.column) then Backfill(buf[1..], cols, acc)
      else match Find(acc, b.index)
        case None => Err(IndexNotFlagged(b.index))
        case Some(p) => Backfill(buf[1..], cols, AddMember(acc, p, b.column))
  }

  method SecondPass(buffer: seq<BufferedRow>, cols: ColumnMap, flagged: IndexMap) returns (r: Result<IndexMap, Error>)
    ensures r == Backfill(buffer, cols, flagged)
  {
    var acc := flagged;
    for i := 0 to |buffer|
      invariant Backfill(buffer[i..], cols, acc) == Backfill(buffer, cols, flagged)
    {
      var b := buffer[i];
      assert buffer[i..][1..] == buffer[i + 1..];
      if Find(cols, b.column).Some? {
        var p := Find(acc, b.index);
        if p.None? {
          // indexesToConvert[name] throws KeyNotFoundException
          return Err(IndexNotFlagged(b.index));
        }
        var e := acc[p.value].1;
        if b.column !in e.members {
          acc := acc[p.value := (acc[p.value].0, IndexEntry(e.members + [b.column], e.kind))];
        }
      }
    }
    return Ok(acc);
  }

  // ---- Properties of the second loop ----

  predicate NoDuplicates(s: seq<string>) {
    forall i, j :: 0 <= i < j < |s| ==> s[i] != s[j]
  }

  /** An index row whose column is converted but whose index is not flagged. */
  predicate Orphan(b: BufferedRow, cols: ColumnMap, acc: IndexMap) {
    HasKey(cols, b.column) && !HasKey(acc, b.index)
  }

  lemma AddMemberKeys(acc: IndexMap, p: nat, column: string)
    requires p < |acc|
    ensures forall n :: HasKey(AddMember(acc, p, column), n) <==> HasKey(acc, n)
    ensures DistinctKeys(acc) ==> DistinctKeys(AddMember(acc, p, column))
  {
    var r := AddMember(acc, p, column);
    forall n ensures HasKey(r, n) <==> HasKey(acc, n) {
      if HasKey(r, n) {
        var i :| 0 <= i < |r| && r[i].0 == n;
        assert acc[i].0 == n;
      }
      if HasKey(acc, n) {
        var i :| 0 <= i < |acc| && acc[i].0 == n;
        assert r[i].0 == n;
      }
    }
  }

  /** The second loop changes no key, no kind and no order, and only appends to member lists. */
  lemma {:induction false} BackfillShape(buf: seq<BufferedRow>, cols: ColumnMap, acc: IndexMap, m: IndexMap)
    requires Backfill(buf, cols, acc) == Ok(m)
    ensures |m| == |acc|
    ensures forall q :: 0 <= q < |m| ==>
      m[q].0 == acc[q].0 && m[q].1.kind == acc[q].1.kind && acc[q].1.members <= m[q].1.members
    decreases |buf|
  {
    if buf != [] {
      var b := buf[0];
      if !HasKey(cols, b.column) {
        BackfillShape(buf[1..], cols, acc, m);
      } else {
        var p := Find(acc, b.index).value;
        var acc' := AddMember(acc, p, b.column);
        BackfillShape(buf[1..], cols, acc', m);
        forall q | 0 <= q < |m| ensures acc[q].1.members <= m[q].1.members {
          assert acc[q].1.members <= acc'[q].1.members;
          assert acc'[q].1.members <= m[q].1.members;
        }
      }
    }
  }

  /** The failure condition of the second loop for all rows but the first carries
      over to all rows when the first row is not an orphan. */
  lemma OrphansShift(buf: seq<BufferedRow>, cols: ColumnMap, acc: IndexMap, acc': IndexMap, r: Result<IndexMap, Error>)
    requires buf != [] && !Orphan(buf[0], cols, acc)
    requires forall c :: Orphan(c, cols, acc') <==> Orphan(c, cols, acc)
    requires r.Err? <==> exists i :: 0 <= i < |buf[1..]| && Orphan(buf[1..][i], cols, acc')
    requires r.Err? ==>
      exists i :: 0 <= i < |buf[1..]| && Orphan(buf[1..][i], cols, acc')
        && (forall k :: 0 <= k < i ==> !Orphan(buf[1..][k], cols, acc'))
        && r.error == IndexNotFlagged(buf[1..][i].index)
    ensures r.Err? <==> exists i :: 0 <= i < |buf| && Orphan(buf[i], cols, acc)
    ensures r.Err? ==>
      exists i :: 0 <= i < |buf| && Orphan(buf[i], cols, acc)
        && (forall k :: 0 <= k < i ==> !Orphan(buf[k], cols, acc))
        && r.error == IndexNotFlagged(buf[i].index)
  {
    var rest := buf[1..];
    if exists i :: 0 <= i < |buf| && Orphan(buf[i], cols, acc) {
      var i :| 0 <= i < |buf| && Orphan(buf[i], cols, acc);
      assert Orphan(rest[i - 1], cols, acc');
    }
    if r.Err? {
      var i :| 0 <= i < |rest| && Orphan(rest[i], cols, acc')
        && (forall k :: 0 <= k < i ==> !Orphan(rest[k], cols, acc'))
        && r.error == IndexNotFlagged(rest[i].index);
      assert Orphan(buf[i + 1], cols, acc);
      forall k | 0 <= k < i + 1 ensures !Orphan(buf[k], cols, acc) {
        if k > 0 { assert buf[k] == rest[k - 1]; }
      }
    }
  }

  /** The lookup throws exactly when some buffered row has a converted column and an
      unflagged index; the error names the first such row's index. */
  lemma {:induction false} BackfillFails(buf: seq<BufferedRow>, cols: ColumnMap, acc: IndexMap)
    ensures Backfill(buf, cols, acc).Err? <==> exists i :: 0 <= i < |buf| && Orphan(buf[i], cols, acc)
    ensures Backfill(buf, cols, acc).Err? ==>
      exists i :: 0 <= i < |buf| && Orphan(buf[i], cols, acc)
        && (forall k :: 0 <= k < i ==> !Orphan(buf[k], cols, acc))
        && Backfill(buf, cols, acc).error == IndexNotFlagged(buf[i].index)
    decreases |buf|
  {
    if buf != [] {
      var b := buf[0];
      if !HasKey(cols, b.column) {
        BackfillFails(buf[1..], cols, acc);
        OrphansShift(buf, cols, acc, acc, Backfill(buf, cols, acc));
      } else if Find(acc, b.index).Some? {
        var p := Find(acc, b.index).value;
        var acc' := AddMember(acc, p, b.column);
        AddMemberKeys(acc, p, b.column);
        assert forall c :: Orphan(c, cols, acc') <==> Orphan(c, cols, acc);
        BackfillFails(buf[1..], cols, acc');
        OrphansShift(buf, cols, acc, acc', Backfill(buf, cols, acc));
      } else {
        assert Orphan(buf[0], cols, acc);
      }
    }
  }

  /** What the member list at position `p` ends up holding: its initial members and
      the converted columns of the buffered rows of that index, nothing else. */
  lemma {:induction false} BackfillMembers(buf: seq<BufferedRow>, cols: ColumnMap, acc: IndexMap, m: IndexMap, p: nat, x: string)
    requires DistinctKeys(acc)
    requires Backfill(buf, cols, acc) == Ok(m)
    requires p < |acc|
    ensures |m| == |acc|
    ensures x in m[p].1.members <==>
      x in acc[p].1.members ||
      exists i :: 0 <= i < |buf| && buf[i].index == acc[p].0 && buf[i].column == x && HasKey(cols, x)
    decreases |buf|
  {
    BackfillShape(buf, cols, acc, m);
    if buf != [] {
      var b := buf[0];
      var rest := buf[1..];
      assert forall k :: 0 <= k < |rest| ==> rest[k] == buf[k + 1];
      var acc' := acc;
      if HasKey(cols, b.column) {
        var q := Find(acc, b.index).value;
        acc' := AddMember(acc, q, b.column);
        AddMemberKeys(acc, q, b.column);
        if b.index == acc[p].0 {
          FindUnique(acc, b.index, p);
        }
      }
      assert Backfill(rest, cols, acc') == Ok(m);
      BackfillMembers(rest, cols, acc', m, p, x);
      assert acc'[p].0 == acc[p].0;
      if exists i :: 0 <= i < |buf| && buf[i].index == acc[p].0 && buf[i].column == x && HasKey(cols, x) {
        var i :| 0 <= i < |buf| && buf[i].index == acc[p].0 && buf[i].column == x && HasKey(cols, x);
        if i > 0 {
          assert rest[i - 1] == buf[i];
        }
      }
    }
  }

  /** The second loop never duplicates a member. */
  lemma {:induction false} BackfillNoDuplicates(buf: seq<BufferedRow>, cols: ColumnMap, acc: IndexMap, m: IndexMap, p: nat)
    requires Backfill(buf, cols, acc) == Ok(m)
    requires p < |acc| && NoDuplicates(acc[p].1.members)
    ensures |m| == |acc|
    ensures NoDuplicates(m[p].1.members)
    decreases |buf|
  {
    BackfillShape(buf, cols, acc, m);
    if buf != [] {
      var b := buf[0];
      if !HasKey(cols, b.column) {
        BackfillNoDuplicates(buf[1..], cols, acc, m, p);
      } else {
        var q := Find(acc, b.index).value;
        var acc' := AddMember(acc, q, b.column);
        BackfillNoDuplicates(buf[1..], cols, acc', m, p);
      }
    }
  }

  // ---- Both loops together ----

  /** `indexesToConvert` after both loops, or the lookup failure. */
  function Resolve(rows: seq<IndexRow>, cols: ColumnMap): (r: Result<IndexMap, Error>)
    ensures r.Ok? ==> |r.value| <= |BufferOf(rows)|
    ensures r.Err? ==> r.error.IndexNotFlagged?
  {
    Backfill(BufferOf(rows), cols, FlaggedOf(rows, cols))
  }

  /** A usable row of index `n` whose column `x` is converted. */
  predicate ConvertedMemberRow(row: IndexRow, cols: ColumnMap, n: string, x: string) {
    Buffered(row).Some? && Buffered(row).value.index == n && Buffered(row).value.column == x && HasKey(cols, x)
  }

  /** A usable row whose column is converted but whose index no row flags. */
  ghost predicate OrphanRow(rows: seq<IndexRow>, cols: ColumnMap, i: int) {
    0 <= i < |rows| && Buffered(rows[i]).Some? && HasKey(cols, Buffered(rows[i]).value.column)
    && !Flagged(rows, cols, Buffered(rows[i]).value.index)
  }

  lemma BufferOrphans(rows: seq<IndexRow>, cols: ColumnMap)
    ensures (exists i :: 0 <= i < |BufferOf(rows)| && Orphan(BufferOf(rows)[i], cols, FlaggedOf(rows, cols)))
        <==> (exists i :: OrphanRow(rows, cols, i))
  {
    var buf, flagged := BufferOf(rows), FlaggedOf(rows, cols);
    if exists i :: 0 <= i < |buf| && Orphan(buf[i], cols, flagged) {
      var i :| 0 <= i < |buf| && Orphan(buf[i], cols, flagged);
      BufferMembers(rows, buf[i]);
      var k :| 0 <= k < |rows| && Buffered(rows[k]) == Some(buf[i]);
      FlaggedKeys(rows, cols, buf[i].index);
      assert OrphanRow(rows, cols, k);
    }
    if exists i :: OrphanRow(rows, cols, i) {
      var k :| OrphanRow(rows, cols, k);
      var b := Buffered(rows[k]).value;
      BufferMembers(rows, b);
      var i :| 0 <= i < |buf| && buf[i] == b;
      FlaggedKeys(rows, cols, b.index);
      assert Orphan(buf[i], cols, flagged);
    }
  }

  /** The second loop throws exactly when some usable row has a converted column
      while no row of its index flagged it -- for instance any index over
      VARCHAR, CHAR or LONGTEXT columns only. */
  lemma ResolveFails(rows: seq<IndexRow>, cols: ColumnMap)
    ensures Resolve(rows, cols).Err? <==> exists i :: OrphanRow(rows, cols, i)
    ensures Resolve(rows, cols).Err? ==>
      exists i :: OrphanRow(rows, cols, i) && Resolve(rows, cols).error == IndexNotFlagged(Buffered(rows[i]).value.index)
  {
    var buf, flagged := BufferOf(rows), FlaggedOf(rows, cols);
    BackfillFails(buf, cols, flagged);
    BufferOrphans(rows, cols);
    if Resolve(rows, cols).Err? {
      var i :| 0 <= i < |buf| && Orphan(buf[i], cols, flagged)
        && Backfill(buf, cols, flagged).error == IndexNotFlagged(buf[i].index);
      BufferMembers(rows, buf[i]);
      var k :| 0 <= k < |rows| && Buffered(rows[k]) == Some(buf[i]);
      FlaggedKeys(rows, cols, buf[i].index);
      assert OrphanRow(rows, cols, k);
    }
  }

  /** The rebuilt indexes are the flagged ones, each once, in flagging order. */
  lemma ResolveKeys(rows: seq<IndexRow>, cols: ColumnMap, m: IndexMap, n: string)
    requires Resolve(rows, cols) == Ok(m)
    ensures Keys(m) == Keys(FlaggedOf(rows, cols))
    ensures DistinctKeys(m)
    ensures HasKey(m, n) <==> Flagged(rows, cols, n)
  {
    var flagged := FlaggedOf(rows, cols);
    BackfillShape(BufferOf(rows), cols, flagged, m);
    FlaggedDistinct(rows, cols);
    FlaggedKeys(rows, cols, n);
    assert Keys(m) == Keys(flagged);
    if HasKey(m, n) {
      var i :| 0 <= i < |m| && m[i].0 == n;
      assert flagged[i].0 == n;
    }
    if HasKey(flagged, n) {
      var i :| 0 <= i < |flagged| && flagged[i].0 == n;
      assert m[i].0 == n;
    }
  }

  /** A rebuilt index holds exactly the converted columns among its usable rows;
      every other column of the index is lost. */
  lemma ResolveMembers(rows: seq<IndexRow>, cols: ColumnMap, m: IndexMap, p: nat, x: string)
    requires Resolve(rows, cols) == Ok(m)
    requires p < |m|
    ensures x in m[p].1.members <==> exists i :: 0 <= i < |rows| && ConvertedMemberRow(rows[i], cols, m[p].0, x)
  {
    var buf, flagged := BufferOf(rows), FlaggedOf(rows, cols);
    BackfillShape(buf, cols, flagged, m);
    FlaggedDistinct(rows, cols);
    BackfillMembers(buf, cols, flagged, m, p, x);
    var n := m[p].0;
    var t := FlaggedEntry(rows, cols, p);
    var trigger := Buffered(rows[t]).value;
    if x in m[p].1.members {
      if x in flagged[p].1.members {
        assert x == trigger.column;
        assert ConvertedMemberRow(rows[t], cols, n, x);
      } else {
        var i :| 0 <= i < |buf| && buf[i].index == n && buf[i].column == x && HasKey(cols, x);
        BufferMembers(rows, buf[i]);
        var k :| 0 <= k < |rows| && Buffered(rows[k]) == Some(buf[i]);
        assert ConvertedMemberRow(rows[k], cols, n, x);
      }
    }
    if exists i :: 0 <= i < |rows| && ConvertedMemberRow(rows[i], cols, n, x) {
      var k :| 0 <= k < |rows| && ConvertedMemberRow(rows[k], cols, n, x);
      var b := Buffered(rows[k]).value;
      BufferMembers(rows, b);
      var i :| 0 <= i < |buf| && buf[i] == b;
      assert buf[i].index == flagged[p].0 && buf[i].column == x && HasKey(cols, x);
    }
  }

  /** A rebuilt index keeps the kind of its first flagging row, lists that row's
      column first -- even when other members come earlier in row order -- and
      holds no column twice. */
  /** The rebuilt indexes, and so their DROP and ADD lines, come in the order of
      their first flagging rows. */
  lemma ResolveIndexOrder(rows: seq<IndexRow>, cols: ColumnMap, m: IndexMap, p: nat, q: nat) returns (i: nat, j: nat)
    requires Resolve(rows, cols) == Ok(m)
    requires p < q < |m|
    ensures i < j < |rows|
    ensures FirstFlags(rows, cols, i, m[p].0) && FirstFlags(rows, cols, j, m[q].0)
  {
    BackfillShape(BufferOf(rows), cols, FlaggedOf(rows, cols), m);
    i, j := FlaggedOrder(rows, cols, p, q);
  }

  lemma ResolveEntry(rows: seq<IndexRow>, cols: ColumnMap, m: IndexMap, p: nat) returns (i: nat)
    requires Resolve(rows, cols) == Ok(m)
    requires p < |m|
    ensures i < |rows| && Flags(rows[i], cols, m[p].0)
    ensures forall k :: 0 <= k < i ==> !Flags(rows[k], cols, m[p].0)
    ensures m[p].1.kind == Buffered(rows[i]).value.kind
    ensures |m[p].1.members| > 0 && m[p].1.members[0] == Buffered(rows[i]).value.column
    ensures NoDuplicates(m[p].1.members)
  {
    var buf, flagged := BufferOf(rows), FlaggedOf(rows, cols);
    BackfillShape(buf, cols, flagged, m);
    i := FlaggedEntry(rows, cols, p);
    BackfillNoDuplicates(buf, cols, flagged, m, p);
    assert flagged[p].1.members <= m[p].1.members;
  }

  // ---- Member order ----

  /** `members` followed by each of `xs` that is not already present, in the
      order of `xs`: the first occurrence of a repeated column is the one kept. */
  function AppendNew(members: seq<string>, xs: seq<string>): seq<string>
    decreases |xs|
  {
    if xs == [] then members
    else AppendNew(if xs[0] in members then members else members + [xs[0]], xs[1..])
  }

  /** The position of the first occurrence of `x` in `xs`. */
  function FirstIndex(xs: seq<string>, x: string): (k: nat)
    requires x in xs
    ensures k < |xs| && xs[k] == x && x !in xs[..k]
  {
    if xs[0] == x then 0
    else
      var k := FirstIndex(xs[1..], x);
      assert xs[..k + 1] == [xs[0]] + xs[1..][..k];
      k + 1
  }

  /** `AppendNew` keeps what was there, adds exactly the missing elements of `xs`,
      and adds nothing twice. */
  lemma {:induction false} AppendNewContents(members: seq<string>, xs: seq<string>)
    ensures members <= AppendNew(members, xs)
    ensures forall x :: x in AppendNew(members, xs) <==> x in members || x in xs
    ensures forall j :: |members| <= j < |AppendNew(members, xs)| ==> AppendNew(members, xs)[j] !in members
    ensures NoDuplicates(members) ==> NoDuplicates(AppendNew(members, xs))
    decreases |xs|
  {
    if xs != [] {
      var next := if xs[0] in members then members else members + [xs[0]];
      AppendNewContents(next, xs[1..]);
      assert xs == [xs[0]] + xs[1..];
      if NoDuplicates(members) && xs[0] !in members {
        assert NoDuplicates(next);
      }
    }
  }

  /** The elements `AppendNew` adds come in the order of their first occurrence in `xs`. */
  lemma {:induction false} AppendNewOrder(members: seq<string>, xs: seq<string>, j: nat, k: nat)
    requires |members| <= j < k < |AppendNew(members, xs)|
    ensures AppendNew(members, xs)[j] in xs && AppendNew(members, xs)[k] in xs
    ensures FirstIndex(xs, AppendNew(members, xs)[j]) < FirstIndex(xs, AppendNew(members, xs)[k])
    decreases |xs|
  {
    var r := AppendNew(members, xs);
    AppendNewContents(members, xs);
    assert r[j] in r && r[k] in r;
    var x := xs[0];
    var next := if x in members then members else members + [x];
    AppendNewContents(next, xs[1..]);
    assert r[k] !in next;
    if j < |next| {
      // `x` was new and is the element at `j`; it occurs first in `xs`.
      assert r[j] == next[j] == x;
    } else {
      AppendNewOrder(next, xs[1..], j, k);
      assert r[j] !in next;
      assert x in next;
    }
  }

  /** The columns the second loop appends to index `n`, in buffer order: those of
      its buffered rows whose column is converted. */
  function ColumnsFor(buf: seq<BufferedRow>, cols: ColumnMap, n: string): seq<string>
    decreases |buf|
  {
    if buf == [] then []
    else (if buf[0].index == n && HasKey(cols, buf[0].column) then [buf[0].column] else [])
         + ColumnsFor(buf[1..], cols, n)
  }

  lemma {:induction false} ColumnsForAppend(a: seq<BufferedRow>, b: seq<BufferedRow>, cols: ColumnMap, n: string)
    ensures ColumnsFor(a + b, cols, n) == ColumnsFor(a, cols, n) + ColumnsFor(b, cols, n)
    decreases |a|
  {
    if a == [] {
      assert a + b == b;
    } else {
      assert (a + b)[1..] == a[1..] + b;
      ColumnsForAppend(a[1..], b, cols, n);
    }
  }

  /** The second loop grows the member list of each flagged index by exactly the
      new columns of that index's converted buffered rows, in buffer order. */
  lemma {:induction false} BackfillOrder(buf: seq<BufferedRow>, cols: ColumnMap, acc: IndexMap, m: IndexMap, p: nat)
    requires DistinctKeys(acc)
    requires Backfill(buf, cols, acc) == Ok(m)
    requires p < |acc|
    ensures |m| == |acc|
    ensures m[p].1.members == AppendNew(acc[p].1.members, ColumnsFor(buf, cols, acc[p].0))
    decreases |buf|
  {
    if buf != [] {
      var b, rest := buf[0], buf[1..];
      var n := acc[p].0;
      if !HasKey(cols, b.column) {
        BackfillOrder(rest, cols, acc, m, p);
        assert ColumnsFor(buf, cols, n) == ColumnsFor(rest, cols, n);
      } else {
        var q := Find(acc, b.index).value;
        var acc' := AddMember(acc, q, b.column);
        AddMemberKeys(acc, q, b.column);
        BackfillOrder(rest, cols, acc', m, p);
        if b.index == n {
          FindUnique(acc, n, p);
          assert ColumnsFor(buf, cols, n) == [b.column] + ColumnsFor(rest, cols, n);
          assert ([b.column] + ColumnsFor(rest, cols, n))[1..] == ColumnsFor(rest, cols, n);
        } else {
          assert acc'[p] == acc[p];
          assert ColumnsFor(buf, cols, n) == ColumnsFor(rest, cols, n);
        }
      }
    }
  }

  /** The columns of the usable rows of index `n` that are converted, in row order. */
  function MemberColumns(rows: seq<IndexRow>, cols: ColumnMap, n: string): seq<string> {
    if rows == [] then []
    else
      var prev := MemberColumns(rows[..|rows| - 1], cols, n);
      match Buffered(rows[|rows| - 1])
      case Some(b) => if b.index == n && HasKey(cols, b.column) then prev + [b.column] else prev
      case None => prev
  }

  /** Over the buffer the first loop builds, `ColumnsFor` is `MemberColumns`. */
  lemma {:induction false} ColumnsForBuffer(rows: seq<IndexRow>, cols: ColumnMap, n: string)
    ensures ColumnsFor(BufferOf(rows), cols, n) == MemberColumns(rows, cols, n)
  {
    if rows != [] {
      var init, last := rows[..|rows| - 1], rows[|rows| - 1];
      ColumnsForBuffer(init, cols, n);
      if Buffered(last).Some? {
        var b := Buffered(last).value;
        ColumnsForAppend(BufferOf(init), [b], cols, n);
        assert [b][1..] == [];
      }
    }
  }

  /** The member list of a rebuilt index: the column of the first row that flagged
      it, then the other converted columns of its rows, once each, in row order. */
  lemma ResolveOrder(rows: seq<IndexRow>, cols: ColumnMap, m: IndexMap, p: nat) returns (i: nat)
    requires Resolve(rows, cols) == Ok(m)
    requires p < |m|
    ensures i < |rows| && Flags(rows[i], cols, m[p].0)
    ensures forall k :: 0 <= k < i ==> !Flags(rows[k], cols, m[p].0)
    ensures m[p].1.members == AppendNew([Buffered(rows[i]).value.column], MemberColumns(rows, cols, m[p].0))
  {
    var buf, flagged := BufferOf(rows), FlaggedOf(rows, cols);
    BackfillShape(buf, cols, flagged, m);
    FlaggedDistinct(rows, cols);
    i := FlaggedEntry(rows, cols, p);
    BackfillOrder(buf, cols, flagged, m, p);
    ColumnsForBuffer(rows, cols, m[p].0);
  }

  /** Columns of the rebuilt index past the first are ordered by the first row
      that names them. */
  lemma ResolveMemberOrder(rows: seq<IndexRow>, cols: ColumnMap, m: IndexMap, p: nat, j: nat, k: nat)
    requires Resolve(rows, cols) == Ok(m)
    requires p < |m| && 1 <= j < k < |m[p].1.members|
    ensures m[p].1.members[j] in MemberColumns(rows, cols, m[p].0)
    ensures m[p].1.members[k] in MemberColumns(rows, cols, m[p].0)
    ensures FirstIndex(MemberColumns(rows, cols, m[p].0), m[p].1.members[j])
          < FirstIndex(MemberColumns(rows, cols, m[p].0), m[p].1.members[k])
  {
    var i := ResolveOrder(rows, cols, m, p);
    AppendNewOrder([Buffered(rows[i]).value.column], MemberColumns(rows, cols, m[p].0), j, k);
  }

  // ---- Which columns flag an index ----

  /** The spellings of TINYTEXT, MEDIUMTEXT and TEXT that the type patterns accept. */
  predicate IsShortTextSpelling(t: string) {
    t == "TINYTEXT" || t == "tinytext" || t == "MEDIUMTEXT" || t == "mediumtext" || t == "TEXT" || t == "text"
  }

  /** A converted column's source literal is a rebuild literal exactly for the
      TINYTEXT, MEDIUMTEXT and TEXT families: LONGTEXT (literal `LONGTEXT`, not
      `LOGTEXT`), VARCHAR and CHAR (literal = the declared string) never are. */
  lemma RebuildLiteralFamilies(t: string, c: Conversion)
    requires Classify(t) == Some(c)
    ensures IsRebuildLiteral(c.source) <==> IsShortTextSpelling(t)
  {
    var f, upper, size := ClassifySound(t, c);
    if Sized(f) {
      assert c.source == t;
      assert t[|t| - 1] == ')';
    }
  }

  lemma ShortTextClassified(t: string)
    requires IsShortTextSpelling(t)
    ensures Classify(t).Some?
  {
    var f := if t == "TINYTEXT" || t == "tinytext" then TinyText
      else if t == "MEDIUMTEXT" || t == "mediumtext" then MediumText
      else Text;
    var upper := t == "TINYTEXT" || t == "MEDIUMTEXT" || t == "TEXT";
    assert t == Declared(f, upper, "");
    ClassifyComplete(f, upper, "");
  }

  lemma TriggerHasShortText(describe: seq<DescribeRow>, x: string) returns (i: nat)
    requires Triggers(ColumnsOf(describe), x)
    ensures i < |describe| && describe[i].field == Some(x) && describe[i].typ.Some?
    ensures IsShortTextSpelling(describe[i].typ.value)
  {
    var cols := ColumnsOf(describe);
    var j :| 0 <= j < |cols| && cols[j].0 == x && IsRebuildLiteral(cols[j].1.source);
    assert cols[j] in cols;
    ColumnsOfMembers(describe, cols[j]);
    i :| 0 <= i < |describe| && Converted(describe[i]) == Some(cols[j]);
    RebuildLiteralFamilies(describe[i].typ.value, cols[j].1);
  }

  lemma ShortTextTriggers(describe: seq<DescribeRow>, i: nat)
    requires i < |describe| && describe[i].field.Some? && describe[i].typ.Some?
    requires IsShortTextSpelling(describe[i].typ.value)
    ensures Triggers(ColumnsOf(describe), describe[i].field.value)
  {
    var c := ShortTextConverted(describe[i].typ.value);
    var j := ColumnsOfAt(describe, i);
    assert ColumnsOf(describe)[j].1 == c;
  }

  lemma ShortTextConverted(t: string) returns (c: Conversion)
    requires IsShortTextSpelling(t)
    ensures Classify(t) == Some(c) && IsRebuildLiteral(c.source)
  {
    ShortTextClassified(t);
    c := Classify(t).value;
    RebuildLiteralFamilies(t, c);
  }

  /** Over the columns recorded from `DESCRIBE`, an index row's column flags its
      index exactly when that column is declared TINYTEXT, MEDIUMTEXT or TEXT. */
  lemma TriggersIff(describe: seq<DescribeRow>, x: string)
    ensures Triggers(ColumnsOf(describe), x) <==>
      exists i :: 0 <= i < |describe| && describe[i].field == Some(x) && describe[i].typ.Some?
                  && IsShortTextSpelling(describe[i].typ.value)
  {
    if Triggers(ColumnsOf(describe), x) {
      var i := TriggerHasShortText(describe, x);
    }
    if exists i :: 0 <= i < |describe| && describe[i].field == Some(x) && describe[i].typ.Some?
                   && IsShortTextSpelling(describe[i].typ.value) {
      var i :| 0 <= i < |describe| && describe[i].field == Some(x) && describe[i].typ.Some?
               && IsShortTextSpelling(describe[i].typ.value);
      ShortTextTriggers(describe, i);
    }
  }

  /** Every rebuilt index has at least one member, so its `ADD` line can be rendered. */
  lemma ResolvedMembersNonEmpty(rows: seq<IndexRow>, cols: ColumnMap, m: IndexMap)
    requires Resolve(rows, cols) == Ok(m)
    ensures forall p :: 0 <= p < |m| ==> |m[p].1.members| > 0
  {
    forall p | 0 <= p < |m| ensures |m[p].1.members| > 0 {
      var i := ResolveEntry(rows, cols, m, p);
    }
  }
}
