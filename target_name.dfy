/**
 * Parsing of the `--Target` option: either `db.tbl` or a lone `db`, each
 * identifier made of `[0-9a-zA-Z$_]` and optionally wrapped in backticks
 * (each backtick independently optional).
 */
module TargetName {
  import opened Wrappers
  import opened Errors

  /** What the target names: a database, and possibly one of its tables. */
  datatype Target = Target(database: string, table: Option<string>)

  /** The character class `[0-9a-zA-Z$_]`. */
  predicate IsIdentChar(c: char) {
    ('0' <= c <= '9') || ('a' <= c <= 'z') || ('A' <= c <= 'Z') || c == '$' || c == '_'
  }

  /** `[0-9a-zA-Z$_]+` */
  predicate IsIdentifier(s: string) {
    |s| > 0 && forall i :: 0 <= i < |s| ==> IsIdentChar(s[i])
  }

  /** Whole-string match of `` `?([0-9a-zA-Z$_]+)`? ``, giving the captured identifier. */
  function Segment(s: string): Option<string> {
    var a := if |s| > 0 && s[0] == '`' then s[1..] else s;
    var b := if |a| > 0 && a[|a| - 1] == '`' then a[..|a| - 1] else a;
    if IsIdentifier(b) then Some(b) else None
  }

  /** The position of the first `.` in `s`. */
  function DotIndex(s: string): (r: Option<nat>)
    ensures r.Some? ==> r.value < |s| && s[r.value] == '.' && '.' !in s[..r.value]
    ensures r.None? ==> '.' !in s
  {
    if |s| == 0 then None
    else if s[0] == '.' then Some(0)
    else match DotIndex(s[1..])
      case None => None
      case Some(i) => (assert s[..i + 1] == [s[0]] + s[1..][..i]; Some(i + 1))
  }

  /**
   * Whole-string match of `` `?(id)`?\.`?(id)`? ``.  Neither the identifiers
   * nor the backticks can contain a dot, so the match splits at the one dot.
   */
  function Qualified(s: string): Option<(string, string)> {
    match DotIndex(s)
    case None => None
    case Some(k) =>
      var db, tbl := Segment(s[..k]), Segment(s[k + 1..]);
      if db.Some? && tbl.Some? then Some((db.value, tbl.value)) else None
  }

  /** The qualified pattern is tried first, then the lone identifier; anything else is an invalid target. */
  function Parse(s: string): (r: Result<Target, Error>)
    ensures r.Err? ==> r.error == InvalidTarget
    ensures r.Ok? ==> IsIdentifier(r.value.database)
    ensures r.Ok? && r.value.table.Some? ==> IsIdentifier(r.value.table.value)
  {
    match Qualified(s)
    case Some((db, tbl)) => Ok(Target(db, Some(tbl)))
    case None =>
      match Segment(s)
      case Some(db) => Ok(Target(db, None))
      case None => Err(InvalidTarget)
  }

  // ---- Reference: the strings the two patterns describe ----

  /** Which of the two optional backticks around an identifier are present. */
  datatype Ticks = Ticks(before: bool, after: bool)

  function Wrap(q: Ticks, id: string): string {
    (if q.before then "`" else "") + id + (if q.after then "`" else "")
  }

  /** `s` is some spelling of `db.tbl`. */
  ghost predicate IsQualifiedForm(s: string) {
    exists q1: Ticks, q2: Ticks, db: string, tbl: string ::
      IsIdentifier(db) && IsIdentifier(tbl) && s == Wrap(q1, db) + "." + Wrap(q2, tbl)
  }

  /** `s` is some spelling of a lone `db`. */
  ghost predicate IsSingleForm(s: string) {
    exists q: Ticks, db: string :: IsIdentifier(db) && s == Wrap(q, db)
  }

  lemma WrapHasNoDot(q: Ticks, id: string)
    requires IsIdentifier(id)
    ensures '.' !in Wrap(q, id)
  {
    var w := Wrap(q, id);
    forall i | 0 <= i < |w| ensures w[i] != '.' {
      if q.before && i == 0 {
      } else if q.after && i == |w| - 1 {
      } else {
        var j := if q.before then i - 1 else i;
        assert w[i] == id[j];
      }
    }
  }

  lemma {:induction false} SegmentOfWrap(q: Ticks, id: string)
    requires IsIdentifier(id)
    ensures Segment(Wrap(q, id)) == Some(id)
  {
    var s := Wrap(q, id);
    var tail := id + (if q.after then "`" else "");
    assert IsIdentChar(id[0]) && IsIdentChar(id[|id| - 1]);
    if q.before {
      assert s == "`" + tail;
      assert s[1..] == tail;
    } else {
      assert s == tail;
    }
    if q.after {
      assert tail[..|tail| - 1] == id;
    } else {
      assert tail == id;
    }
  }

  lemma SegmentSound(s: string, id: string) returns (q: Ticks)
    requires Segment(s) == Some(id)
    ensures IsIdentifier(id)
    ensures s == Wrap(q, id)
  {
    var before := |s| > 0 && s[0] == '`';
    var a := if before then s[1..] else s;
    var after := |a| > 0 && a[|a| - 1] == '`';
    q := Ticks(before, after);
    if before {
      assert s == "`" + a;
    }
    if after {
      assert a == id + "`";
    }
    assert s == Wrap(q, id);
  }

  lemma {:induction false} DotIndexOfJoin(left: string, right: string)
    requires '.' !in left
    ensures DotIndex(left + "." + right) == Some(|left|)
  {
    var s := left + "." + right;
    if left != [] {
      assert left[0] in left;
      assert s[0] == left[0];
      assert s[1..] == left[1..] + "." + right;
      assert forall c :: c in left[1..] ==> c in left;
      DotIndexOfJoin(left[1..], right);
    }
  }

  /** Every spelling of `db.tbl` parses to database `db` and table `tbl`. */
  lemma ParseQualified(q1: Ticks, db: string, q2: Ticks, tbl: string)
    requires IsIdentifier(db) && IsIdentifier(tbl)
    ensures Parse(Wrap(q1, db) + "." + Wrap(q2, tbl)) == Ok(Target(db, Some(tbl)))
  {
    var left, right := Wrap(q1, db), Wrap(q2, tbl);
    var s := left + "." + right;
    WrapHasNoDot(q1, db);
    DotIndexOfJoin(left, right);
    assert s[..|left|] == left;
    assert s[|left| + 1..] == right;
    SegmentOfWrap(q1, db);
    SegmentOfWrap(q2, tbl);
  }

  /** Every spelling of a lone `db` parses to database `db` and no table. */
  lemma ParseSingle(q: Ticks, db: string)
    requires IsIdentifier(db)
    ensures Parse(Wrap(q, db)) == Ok(Target(db, None))
  {
    WrapHasNoDot(q, db);
    SegmentOfWrap(q, db);
  }

  lemma QualifiedSound(s: string, db: string, tbl: string) returns (q1: Ticks, q2: Ticks)
    requires Qualified(s) == Some((db, tbl))
    ensures IsIdentifier(db) && IsIdentifier(tbl)
    ensures s == Wrap(q1, db) + "." + Wrap(q2, tbl)
  {
    var k := DotIndex(s).value;
    var left, right := s[..k], s[k + 1..];
    assert Segment(left) == Some(db) && Segment(right) == Some(tbl);
    q1 := SegmentSound(left, db);
    q2 := SegmentSound(right, tbl);
    SplitAtDot(s, k);
  }

  lemma SplitAtDot(s: string, k: nat)
    requires k < |s| && s[k] == '.'
    ensures s == s[..k] + "." + s[k + 1..]
  {
    assert s == s[..k] + [s[k]] + s[k + 1..];
  }

  /** A successful parse names identifiers, and the input was a spelling of them. */
  lemma ParseSound(s: string, t: Target)
    requires Parse(s) == Ok(t)
    ensures IsIdentifier(t.database)
    ensures t.table.Some? ==> IsIdentifier(t.table.value)
    ensures t.table.Some? ==> exists q1: Ticks, q2: Ticks :: s == Wrap(q1, t.database) + "." + Wrap(q2, t.table.value)
    ensures t.table.None? ==> exists q: Ticks :: s == Wrap(q, t.database)
  {
    if Qualified(s).Some? {
      var q1, q2 := QualifiedSound(s, Qualified(s).value.0, Qualified(s).value.1);
    } else {
      var q := SegmentSound(s, t.database);
    }
  }

  /** The target is invalid exactly when the input is a spelling of neither form. */
  lemma ParseInvalidIff(s: string)
    ensures Parse(s) == Err(InvalidTarget) <==> !IsQualifiedForm(s) && !IsSingleForm(s)
  {
    if Parse(s).Ok? {
      var t := Parse(s).value;
      ParseSound(s, t);
      if t.table.Some? {
        var q1: Ticks, q2: Ticks :| s == Wrap(q1, t.database) + "." + Wrap(q2, t.table.value);
        assert IsQualifiedForm(s);
      } else {
        var q: Ticks :| s == Wrap(q, t.database);
        assert IsSingleForm(s);
      }
    }
    if IsQualifiedForm(s) {
      var q1: Ticks, q2: Ticks, db: string, tbl: string :|
        IsIdentifier(db) && IsIdentifier(tbl) && s == Wrap(q1, db) + "." + Wrap(q2, tbl);
      ParseQualified(q1, db, q2, tbl);
    }
    if IsSingleForm(s) {
      var q: Ticks, db: string :| IsIdentifier(db) && s == Wrap(q, db);
      ParseSingle(q, db);
    }
  }

  // ---- Examples ----

  lemma ParseExamples()
    ensures Parse("a.b") == Ok(Target("a", Some("b")))
    ensures Parse("a") == Ok(Target("a", None))
  {
    var bare := Ticks(false, false);
    assert IsIdentifier("a") && IsIdentifier("b");
    assert "a.b" == Wrap(bare, "a") + "." + Wrap(bare, "b");
    ParseQualified(bare, "a", bare, "b");
    assert "a" == Wrap(bare, "a");
    ParseSingle(bare, "a");
  }

  lemma BacktickExamples()
    ensures Parse("`a`.`b`") == Ok(Target("a", Some("b")))
    ensures Parse("`a.b") == Ok(Target("a", Some("b")))
  {
    var bare, both, lead := Ticks(false, false), Ticks(true, true), Ticks(true, false);
    assert IsIdentifier("a") && IsIdentifier("b");
    assert "`a`.`b`" == Wrap(both, "a") + "." + Wrap(both, "b");
    ParseQualified(both, "a", both, "b");
    assert "`a.b" == Wrap(lead, "a") + "." + Wrap(bare, "b");
    ParseQualified(lead, "a", bare, "b");
  }

  lemma InvalidExamples()
    ensures Parse("") == Err(InvalidTarget)
    ensures Parse("-") == Err(InvalidTarget)
  {
    assert !IsIdentChar("-"[0]);
  }

  /** An empty table part is rejected; the lone-name pattern rejects the dots. */
  lemma DoubledDotInvalid()
    ensures Parse("db..tbl") == Err(InvalidTarget)
  {
    var s := "db..tbl";
    DotIndexOfJoin("db", ".tbl");
    assert s == "db" + "." + ".tbl";
    assert s[3..] == ".tbl";
    assert !IsIdentChar(s[2]);
  }
}
