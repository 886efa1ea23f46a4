/**
 * The ways a run of the converter stops early.  All but the last are the
 * calls of `Fail` in `Main`; the last is the KeyNotFoundException that the
 * second index pass raises when it looks up an index that was never flagged.
 */
module Errors {

  datatype Error =
    | InvalidTarget
    | UnsupportedDestEncoding(encoding: string)
    | UnsupportedSourceEncoding(encoding: string)
    | DatabaseNotFound(database: string)
    | TableNotFound(table: string)
    | IndexNotFlagged(index: string)

  /** True for the errors that reach `Fail` (and so print a message and exit with code 1). */
  predicate IsFailCall(e: Error) {
    !e.IndexNotFlagged?
  }

  /** The characters .NET's `Char.IsWhiteSpace` accepts: the control characters
      U+0009 to U+000D and U+0085, and the space, line and paragraph separators. */
  predicate IsWhiteSpace(c: char) {
    '\U{0009}' <= c <= '\U{000D}' || c == '\U{0085}' || c == ' ' || c == '\U{00A0}' || c == '\U{1680}'
    || '\U{2000}' <= c <= '\U{200A}' || c == '\U{2028}' || c == '\U{2029}' || c == '\U{202F}'
    || c == '\U{205F}' || c == '\U{3000}'
  }

  /** `string.IsNullOrWhiteSpace` on a non-null message: `Fail` prints the usage
      text instead of the message exactly when this holds. */
  predicate IsBlank(m: string) {
    forall i :: 0 <= i < |m| ==> IsWhiteSpace(m[i])
  }

  /** The text `Fail` prints after "ERROR: " for each of its callers in `Main`;
      none is blank, so `Fail` always prints it rather than the usage text. */
  function Message(e: Error): (m: string)
    requires IsFailCall(e)
    ensures |m| > 0 && !IsWhiteSpace(m[0])
    ensures !IsBlank(m)
  {
    match e
    case InvalidTarget => "Invalid target name."
    case UnsupportedDestEncoding(enc) =>
      "Specified destination encoding '" + enc + "' not supported by DBMS."
    // The source-encoding check reuses the destination wording verbatim.
    case UnsupportedSourceEncoding(enc) =>
      "Specified destination encoding '" + enc + "' not supported by DBMS."
    case DatabaseNotFound(db) => "Specified database " + db + " does not exist."
    case TableNotFound(tbl) => "Specified target table '" + tbl + "' does not exist."
  }

  /**
   * The message for an unsupported source encoding cannot be told apart from
   * the one for an unsupported destination encoding naming the same charset.
   */
  lemma SourceEncodingReportedAsDestination(enc: string)
    ensures Message(UnsupportedSourceEncoding(enc)) == Message(UnsupportedDestEncoding(enc))
  {
  }
}
