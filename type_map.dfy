/**
 * Classification of a `DESCRIBE` type string into the binary type the column
 * is routed through.  Each of the six patterns is anchored at both ends and
 * accepts only an all-upper or an all-lower spelling of the type name.
 *
 * Two assumptions about the regex engine: `\d` is taken to be the ASCII
 * digits, and type strings contain no line break (so `$` is the end of text).
 */
module TypeMap {
  import opened Wrappers

  /** The pair stored per converted column: the literal the column is restored
      to (with the destination charset), and the binary literal it passes through. */
  datatype Conversion = Conversion(source: string, binary: string)

  predicate IsDigit(c: char) { '0' <= c <= '9' }

  /** `\d+` */
  predicate IsDigits(s: string) {
    |s| > 0 && forall i :: 0 <= i < |s| ==> IsDigit(s[i])
  }

  /** Whole-string match of `^(?:UPPER|lower)\((\d+)\)$`, giving the digit group. */
  function SizedMatch(t: string, upper: string, lower: string): (r: Option<string>)
    requires |upper| == |lower|
    ensures r.Some? ==> IsDigits(r.value) && (t == upper + "(" + r.value + ")" || t == lower + "(" + r.value + ")")
  {
    var n := |upper|;
    if |t| >= n + 2 && (t[..n] == upper || t[..n] == lower) && t[n] == '(' && t[|t| - 1] == ')'
       && IsDigits(t[n + 1..|t| - 1])
    then
      assert t == t[..n] + "(" + t[n + 1..|t| - 1] + ")";
      Some(t[n + 1..|t| - 1])
    else None
  }

  /** The six patterns in the order the source tries them; the first match wins. */
  function Classify(t: string): (r: Option<Conversion>)
    ensures r.Some? ==> |r.value.source| == |t| > 0
  {
    match SizedMatch(t, "VARCHAR", "varchar")
    case Some(size) => Some(Conversion(t, "VARBINARY(" + size + ")"))
    case None =>
      match SizedMatch(t, "CHAR", "char")
      case Some(size) => Some(Conversion(t, "BINARY(" + size + ")"))
      case None =>
        if t == "TINYTEXT" || t == "tinytext" then Some(Conversion("TINYTEXT", "TINYBLOB"))
        else if t == "MEDIUMTEXT" || t == "mediumtext" then Some(Conversion("MEDIUMTEXT", "MEDIUMBLOB"))
        // The binary literal is spelled LOGBLOB, not LONGBLOB.
        else if t == "LONGTEXT" || t == "longtext" then Some(Conversion("LONGTEXT", "LOGBLOB"))
        else if t == "TEXT" || t == "text" then Some(Conversion("TEXT", "BLOB"))
        else None
  }

  // ---- Reference: the declared types the six patterns describe ----

  datatype Family = VarChar | Char | TinyText | MediumText | LongText | Text

  /** Only VARCHAR and CHAR carry a size. */
  predicate Sized(f: Family) { f == VarChar || f == Char }

  /** The upper- or lower-case spelling of the family name. */
  function Spelling(f: Family, upper: bool): string {
    match f
    case VarChar => if upper then "VARCHAR" else "varchar"
    case Char => if upper then "CHAR" else "char"
    case TinyText => if upper then "TINYTEXT" else "tinytext"
    case MediumText => if upper then "MEDIUMTEXT" else "mediumtext"
    case LongText => if upper then "LONGTEXT" else "longtext"
    case Text => if upper then "TEXT" else "text"
  }

  /** A declared type as the server reports it; the size only matters for sized families. */
  function Declared(f: Family, upper: bool, size: string): string {
    if Sized(f) then Spelling(f, upper) + "(" + size + ")" else Spelling(f, upper)
  }

  /** A size is acceptable when the family has none, or when it is a digit string. */
  predicate ValidSize(f: Family, size: string) {
    Sized(f) ==> IsDigits(size)
  }

  /** The conversion table of the source: VARCHAR(n) -> VARBINARY(n), CHAR(n) -> BINARY(n),
      TINYTEXT -> TINYBLOB, MEDIUMTEXT -> MEDIUMBLOB, LONGTEXT -> LOGBLOB, TEXT -> BLOB.
      Sized types keep their declared string as source literal, the others the upper-case name. */
  function Expected(f: Family, upper: bool, size: string): Conversion {
    match f
    case VarChar => Conversion(Declared(f, upper, size), "VARBINARY(" + size + ")")
    case Char => Conversion(Declared(f, upper, size), "BINARY(" + size + ")")
    case TinyText => Conversion("TINYTEXT", "TINYBLOB")
    case MediumText => Conversion("MEDIUMTEXT", "MEDIUMBLOB")
    case LongText => Conversion("LONGTEXT", "LOGBLOB")
    case Text => Conversion("TEXT", "BLOB")
  }

  lemma DigitsHaveNoParen(size: string)
    requires IsDigits(size)
    ensures ')' !in size && '(' !in size
  {
  }

  lemma SizedMatchOf(upper: string, lower: string, name: string, size: string)
    requires |upper| == |lower| && (name == upper || name == lower)
    requires IsDigits(size)
    ensures SizedMatch(name + "(" + size + ")", upper, lower) == Some(size)
  {
    var t := name + "(" + size + ")";
    var n := |upper|;
    assert t[..n] == name;
    assert t[n + 1..|t| - 1] == size;
  }

  /** Every declared type of a family is classified by the table. */
  lemma ClassifyComplete(f: Family, upper: bool, size: string)
    requires ValidSize(f, size)
    ensures Classify(Declared(f, upper, size)) == Some(Expected(f, upper, size))
  {
    var t := Declared(f, upper, size);
    match f
    case VarChar =>
      SizedMatchOf("VARCHAR", "varchar", Spelling(f, upper), size);
    case Char =>
      SizedMatchOf("CHAR", "char", Spelling(f, upper), size);
      assert t[0] == 'C' || t[0] == 'c';
      SizedMatchMisses(t, "VARCHAR", "varchar", 0, 0);
    case _ =>
      assert t[|t| - 1] == 'T' || t[|t| - 1] == 't';
  }

  /** Only the declared types of the six families are classified, and as the table says. */
  lemma ClassifySound(t: string, c: Conversion) returns (f: Family, upper: bool, size: string)
    requires Classify(t) == Some(c)
    ensures ValidSize(f, size)
    ensures t == Declared(f, upper, size)
    ensures c == Expected(f, upper, size)
  {
    var v := SizedMatch(t, "VARCHAR", "varchar");
    var ch := SizedMatch(t, "CHAR", "char");
    if v.Some? {
      f, size := VarChar, v.value;
      upper := t == "VARCHAR" + "(" + size + ")";
    } else if ch.Some? {
      f, size := Char, ch.value;
      upper := t == "CHAR" + "(" + size + ")";
    } else {
      size := "";
      upper := t == "TINYTEXT" || t == "MEDIUMTEXT" || t == "LONGTEXT" || t == "TEXT";
      f := if t == "TINYTEXT" || t == "tinytext" then TinyText
        else if t == "MEDIUMTEXT" || t == "mediumtext" then MediumText
        else if t == "LONGTEXT" || t == "longtext" then LongText
        else Text;
    }
  }

  /** At most one pattern matches any string: the declared type determines its family. */
  lemma FamilyDetermined(f1: Family, u1: bool, s1: string, f2: Family, u2: bool, s2: string)
    requires ValidSize(f1, s1) && ValidSize(f2, s2)
    requires Declared(f1, u1, s1) == Declared(f2, u2, s2)
    ensures f1 == f2
  {
    ClassifyComplete(f1, u1, s1);
    ClassifyComplete(f2, u2, s2);
    var b1, b2 := Expected(f1, u1, s1).binary, Expected(f2, u2, s2).binary;
    assert b1 == b2;
    // The binary literals of different families differ in an early character.
    assert b1[0] == b2[0] && b1[1] == b2[1] && b1[2] == b2[2] && b1[3] == b2[3];
  }

  /** A classified column's binary type is itself never classified again: a table
      left at the intermediate binary types (after the second phase of a script,
      before the third restores the text types) has nothing to convert. */
  lemma BinaryTypesNotConvertible(f: Family, upper: bool, size: string)
    requires ValidSize(f, size)
    ensures Classify(Expected(f, upper, size).binary).None?
  {
    match f
    case VarChar => SizedBinaryNotConverted(Expected(f, upper, size).binary, size);
    case Char => SizedBinaryNotConverted(Expected(f, upper, size).binary, size);
    case _ =>
  }

  lemma SizedBinaryNotConverted(b: string, size: string)
    requires b == "VARBINARY(" + size + ")" || b == "BINARY(" + size + ")"
    requires IsDigits(size)
    ensures Classify(b).None?
  {
    DigitsHaveNoParen(size);
    assert b[|b| - 1] == ')';
    assert b[0] == 'V' || b[0] == 'B';
    SizedMatchMisses(b, "CHAR", "char", 0, 0);
    assert b[3] == 'B' || b[3] == 'A';
    SizedMatchMisses(b, "VARCHAR", "varchar", 3, 3);
  }

  /** The LONGTEXT mapping produces the literal LOGBLOB, which is not the type name LONGBLOB. */
  lemma LongTextMapsToLogblob()
    ensures Classify("LONGTEXT") == Some(Conversion("LONGTEXT", "LOGBLOB"))
    ensures Classify("longtext") == Some(Conversion("LONGTEXT", "LOGBLOB"))
    ensures "LOGBLOB" != "LONGBLOB"
  {
    ClassifyComplete(LongText, true, "");
    ClassifyComplete(LongText, false, "");
  }

  lemma ClassifyExamples()
    ensures Classify("varchar(10)") == Some(Conversion("varchar(10)", "VARBINARY(10)"))
    ensures Classify("CHAR(3)") == Some(Conversion("CHAR(3)", "BINARY(3)"))
    ensures Classify("mediumtext") == Some(Conversion("MEDIUMTEXT", "MEDIUMBLOB"))
  {
    assert IsDigits("10") && IsDigits("3");
    assert Declared(VarChar, false, "10") == "varchar(10)";
    assert Expected(VarChar, false, "10").binary == "VARBINARY(10)";
    ClassifyComplete(VarChar, false, "10");
    assert Declared(Char, true, "3") == "CHAR(3)";
    assert Expected(Char, true, "3").binary == "BINARY(3)";
    ClassifyComplete(Char, true, "3");
    ClassifyComplete(MediumText, false, "");
  }

  /** A sized pattern fails when the name part differs from each spelling somewhere. */
  lemma SizedMatchMisses(t: string, upper: string, lower: string, i: nat, j: nat)
    requires |upper| == |lower| && i < |upper| && j < |upper|
    requires i < |t| && j < |t| && t[i] != upper[i] && t[j] != lower[j]
    ensures SizedMatch(t, upper, lower).None?
  {
    if |t| >= |upper| + 2 {
      assert t[..|upper|][i] == t[i] && t[..|upper|][j] == t[j];
    }
  }

  lemma MixedCaseNotConverted()
    ensures Classify("VarChar(5)").None?
    ensures Classify("Text").None?
  {
    var mixed := "VarChar(5)";
    SizedMatchMisses(mixed, "VARCHAR", "varchar", 1, 0);
    SizedMatchMisses(mixed, "CHAR", "char", 0, 0);
    assert mixed[0] == 'V';
    var text := "Text";
    assert text[1] == 'e' && text[0] == 'T';
  }

  lemma OtherTypesNotConverted()
    ensures Classify("varchar(5) binary").None?
    ensures Classify("int(11)").None?
  {
    var suffixed := "varchar(5) binary";
    assert suffixed[|suffixed| - 1] == 'y';
    SizedMatchMisses(suffixed, "CHAR", "char", 0, 0);
    var int11 := "int(11)";
    SizedMatchMisses(int11, "VARCHAR", "varchar", 0, 0);
    SizedMatchMisses(int11, "CHAR", "char", 0, 0);
  }
}
