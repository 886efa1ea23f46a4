# sqlcsconv in Dafny

sqlcsconv is a command-line tool. It reads a MySQL table's column and index
metadata and prints a SQL script that converts the table's text columns to another
character set. Each text column goes through its binary counterpart, so that the
stored bytes are reinterpreted rather than transcoded. This project models the core
of `Program.cs` and proves properties of that model:

- **Target names** (`TargetName`): `db`, `db.table`, each part optionally wrapped in
  backticks, each part made of `[0-9a-zA-Z$_]`. Anything else is an invalid target.
- **Pre-flight checks** (`Converter.Preflight`, `Converter.Run`): the target must
  parse, the destination encoding must be one the server supports, and so must the
  source encoding when one is given, the database must exist, and the table must
  exist when one is named. The checks run in that order
  and the first one that fails ends the program with its message (`Errors`).
- **Type classification** (`TypeMap`): six patterns tried in order. VARCHAR(n)
  becomes VARBINARY(n), CHAR(n) becomes BINARY(n), TINYTEXT, MEDIUMTEXT and TEXT
  become TINYBLOB, MEDIUMBLOB and BLOB, and LONGTEXT becomes the literal `LOGBLOB`. Each pattern accepts only the
  all-upper or all-lower spelling. For the sized types the recorded source literal
  is the declared type as spelled, for the others it is the upper-case name.
- **Column collection** (`Columns`): the `DESCRIBE` loop that builds
  `columnsToConvert`, kept in insertion order.
- **Index resolution** (`Indexes`): the two passes over the `SHOW INDEXES` rows.
  - The first pass buffers every usable row. It flags an index the first time one of
    its columns is a converted column whose recorded literal is `TINYTEXT`,
    `MEDIUMTEXT`, `LOGTEXT` or `TEXT`.
  - The second pass appends every converted member column to its index. It throws
    when such a row belongs to an index that was never flagged.
- **Script rendering** (`Render`): the header, then the DROP INDEX phase, the two
  MODIFY phases and the ADD INDEX phase. Each phase is assembled with LINQ
  `Aggregate` and trailing-separator removal, which the model proves equal to a
  plain join.

The model follows the code as written, including its defects. Lemmas record each
defect:
- A LONGTEXT column is given the binary type `LOGBLOB` (`TypeMap.LongTextMapsToLogblob`).
- The first pass compares against the literal `LOGTEXT`, which no conversion
  records. So a LONGTEXT, VARCHAR or CHAR column never flags an index. If
  such a column is an index member and no TINYTEXT, MEDIUMTEXT or TEXT column
  flags that index, the dictionary lookup in the second pass throws
  (`Indexes.TriggersIff`, `Converter.ConversionFails`,
  `Scenarios.VarCharIndexThrows`, `Scenarios.LongTextIndexThrows`).
- A unique index on a VARCHAR(50) column alone makes the conversion of that table
  throw (`Scenarios.VarCharIndexThrows`).
- A rebuilt index keeps only its converted columns: the flagging column first, the
  others once each in the order of their index rows (`Indexes.ResolveMembers`,
  `Indexes.ResolveEntry`, `Indexes.ResolveOrder`, `Indexes.ResolveMemberOrder`,
  `Scenarios.UnconvertedMemberDropped`, `Scenarios.MembersReordered`).
- An unsupported source encoding is reported with the words "destination encoding"
  (`Errors.SourceEncodingReportedAsDestination`).

How the program's runtime pieces are modelled:
- Thrown exceptions and calls to `Fail` become `Err` values of `Errors.Error`.
- A .NET `Dictionary` is a sequence of key/value pairs in insertion order,
  `OrderedMap`.
- The server's answers are inputs: the character set list, the database and table
  lists, and the `DESCRIBE` and `SHOW INDEXES` rows. Columns that are not strings
  are `None`.

## Model

| member | source | states |
|---|---|---|
| Errors.Message | Program.cs:65-122 | no message of a pre-flight `Fail` call is empty or white space only (its first character is not white space in the sense of `Char.IsWhiteSpace`), so `Fail`'s `IsNullOrWhiteSpace` test (line 17) always lets it print the message rather than the usage text |
| Errors.SourceEncodingReportedAsDestination | Program.cs:103-106 | the message for an unsupported source encoding is the same text as for an unsupported destination encoding |
| OrderedMap.Find | Program.cs:227-228 | the lookup finds the first entry with the key; it finds none exactly when no entry has the key, which is when the indexer throws |
| OrderedMap.FindUnique | Program.cs:228 | with distinct keys, the lookup returns the unique entry holding the key |
| TargetName.Parse | Program.cs:63-78 | a parsed target's database and table are identifiers, and the only error is an invalid target; `ParseQualified`, `ParseSingle`, `ParseSound` and `ParseInvalidIff` characterise it fully |
| TargetName.SegmentOfWrap | Program.cs:66 | an identifier with or without either backtick matches the single-name pattern and yields the identifier |
| TargetName.SegmentSound | Program.cs:66 | whatever the single-name pattern accepts is an identifier with optional backticks around it |
| TargetName.ParseQualified | Program.cs:63-78 | every spelling of `db.table`, backticks on either side of either part, parses to that database and that table |
| TargetName.ParseSingle | Program.cs:66-73 | every spelling of a lone name parses to that database and no table |
| TargetName.QualifiedSound | Program.cs:63 | whatever the qualified pattern accepts is two identifiers, each with optional backticks, joined by one dot |
| TargetName.ParseSound | Program.cs:63-78 | a parsed target has identifier parts, and the input is exactly one of the two accepted forms of those parts |
| TargetName.ParseInvalidIff | Program.cs:63-70 | the target is rejected exactly when it is neither of the two accepted forms |
| TargetName.ParseExamples | Program.cs:63-78 | `a.b` parses to database `a` and table `b`, and `a` to database `a` alone |
| TargetName.BacktickExamples | Program.cs:63-78 | the fully backticked form and a form with a single backtick both parse to database `a` and table `b` |
| TargetName.InvalidExamples | Program.cs:65-70 | the empty string and a `-` are invalid targets |
| TargetName.DoubledDotInvalid | Program.cs:63-70 | `db..tbl` is an invalid target: after the first dot the table part starts with a dot |
| TypeMap.SizedMatch | Program.cs:154-166 | a sized match yields a digit string and the input is the type name in one of its two spellings with that size in parentheses |
| TypeMap.Classify | Program.cs:154-185 | a classified type's recorded source literal has the length of the declared type: it is the declared text or its upper-case name; `ClassifyComplete` and `ClassifySound` characterise it fully |
| TypeMap.ClassifyComplete | Program.cs:154-185 | every declared type of the six families, in either spelling, is classified to its expected source and binary literals |
| TypeMap.ClassifySound | Program.cs:154-185 | every classified type is a declared type of one of the six families and its conversion is the expected one |
| TypeMap.FamilyDetermined | Program.cs:154-185 | at most one family's pattern matches a given type text |
| TypeMap.BinaryTypesNotConvertible | Program.cs:154-185 | a binary type produced by the conversion is never itself converted, so a table left at the intermediate binary types has nothing to convert |
| TypeMap.LongTextMapsToLogblob | Program.cs:178-181 | LONGTEXT in either spelling maps to the literal `LOGBLOB`, which differs from `LONGBLOB` |
| TypeMap.ClassifyExamples | Program.cs:154-176 | `varchar(10)`, `CHAR(3)` and `mediumtext` map to VARBINARY(10), BINARY(3) and MEDIUMBLOB |
| TypeMap.MixedCaseNotConverted | Program.cs:154-185 | the mixed-case spellings `VarChar(5)` and `Text` are not converted |
| TypeMap.OtherTypesNotConverted | Program.cs:154-185 | a type with a trailing attribute, `varchar(5) binary`, and `int(11)` are not converted |
| Columns.ColumnsOf | Program.cs:134-186 | each row contributes at most one entry; `ColumnsOfMembers`, `ColumnsOfOrder` and `ColumnsOfDistinct` say which entries, in which order |
| Columns.ColumnsOfMembers | Program.cs:134-186 | an entry is recorded exactly when some row with non-null name and type classifies to it |
| Columns.ColumnsOfDistinct | Program.cs:131-186 | when no two converted rows share a name, the recorded names are distinct |
| Columns.ColumnsOfSource | Program.cs:134-186 | every recorded entry is the one some row with non-null name and type classifies to |
| Columns.ColumnsOfAt | Program.cs:134-186 | a converted row's entry is recorded right after the entries of the rows before it |
| Columns.ColumnsOfPrefix | Program.cs:134-186 | the entries recorded after a prefix of the rows are a prefix of the final entries |
| Columns.ColumnsOfLast | Program.cs:134-186 | a converted row appends its entry to the entries of the rows before it |
| Columns.ColumnsOfOrder | Program.cs:131-186 | two converted rows keep their order in the recorded entries |
| Columns.CollectColumns | Program.cs:131-186 | the loop records exactly `ColumnsOf`, the entries the rows contribute, in row order and with distinct names; the `Add` never meets a repeated key |
| Indexes.KindOf | Program.cs:205-210 | the kind is UNIQUE exactly for a unique index, and FULLTEXT exactly for a non-unique index of type FULLTEXT |
| Indexes.FirstPass | Program.cs:192-224 | the loop, including its inner loop with `break`, yields exactly `BufferOf` and `FlaggedOf`, the usable rows and the indexes their first flagging rows create |
| Indexes.BufferOf | Program.cs:195-212 | each row adds at most one buffer entry; `BufferPositions` and `BufferMembers` say which, in which order |
| Indexes.BufferPositions | Program.cs:195-212 | the buffer lists the usable rows in row order: each entry comes from one row, the rows' positions increase, and every usable row is there |
| Indexes.BufferMembers | Program.cs:195-212 | a row is buffered exactly when its name, column and type are not null |
| Indexes.TriggerIsConverted | Program.cs:214-218 | a column that flags an index is a converted column |
| Indexes.FlaggedOf | Program.cs:214-221 | there are no more flagged indexes than buffered rows; `FlaggedKeys`, `FlaggedDistinct` and `FlaggedEntry` say which indexes, with which entries |
| Indexes.FlaggedKeys | Program.cs:214-221 | an index is flagged exactly when one of its usable rows names a converted column with a rebuild literal |
| Indexes.FlaggedDistinct | Program.cs:218-219 | each index is flagged at most once |
| Indexes.FlaggedEntry | Program.cs:214-221 | a flagged entry is created by the first flagging row of its index and holds that row's column and kind |
| Indexes.FlaggedOrder | Program.cs:195-221 | the flagged indexes come in the order of their first flagging rows: an earlier entry's first flagging row precedes a later entry's |
| Indexes.AddMember | Program.cs:228-230 | appending a member changes neither the index names nor their kinds nor their order |
| Indexes.Backfill | Program.cs:226-232 | a completed second pass keeps the number of indexes, and its only failure is the lookup of an unflagged index; `BackfillShape`, `BackfillFails`, `BackfillMembers` and `BackfillOrder` characterise it |
| Indexes.SecondPass | Program.cs:226-232 | the loop yields exactly `Backfill`, the fold over the buffer, including the throw on an unflagged index |
| Indexes.AddMemberKeys | Program.cs:228-230 | appending a member keeps the set of indexes and the distinctness of their names |
| Indexes.BackfillShape | Program.cs:226-232 | the second pass keeps the indexes, their order and kinds, and only extends each member list |
| Indexes.BackfillFails | Program.cs:226-228 | the second pass throws exactly when a buffered row with a converted column names an unflagged index, and the error names the first such index |
| Indexes.BackfillMembers | Program.cs:226-232 | a column is a member after the second pass exactly when it was before or some buffered row of that index names it as a converted column |
| Indexes.BackfillOrder | Program.cs:226-232 | the second pass extends each member list by exactly the new converted columns of that index's buffered rows, once each, in buffer order |
| Indexes.AppendNewContents | Program.cs:228-230 | appending only missing columns keeps the old list as a prefix, adds exactly the missing columns and never repeats one |
| Indexes.AppendNewOrder | Program.cs:228-230 | the appended columns come in the order of their first occurrence |
| Indexes.BackfillNoDuplicates | Program.cs:228-230 | the second pass never adds a member twice |
| Indexes.BufferOrphans | Program.cs:195-228 | an orphan in the buffer is an orphan among the index rows, and the other way round |
| Indexes.Resolve | Program.cs:195-232 | there are no more rebuilt indexes than usable index rows, and the only failure is the lookup of an unflagged index; `ResolveKeys`, `ResolveMembers`, `ResolveOrder` and `ResolveFails` characterise it |
| Indexes.ResolveFails | Program.cs:195-232 | both passes together throw exactly when some usable row has a converted column of an unflagged index, and the error names that index |
| Indexes.ResolveKeys | Program.cs:214-232 | the rebuilt indexes are exactly the flagged ones, in flagging order, with distinct names |
| Indexes.ResolveMembers | Program.cs:226-232 | a column is a member of a rebuilt index exactly when a usable row of that index names it and it is converted |
| Indexes.ResolveIndexOrder | Program.cs:195-232 | the rebuilt indexes, whose order is that of the DROP INDEX and ADD lines, come in the order of their first flagging rows |
| Indexes.ResolveEntry | Program.cs:214-232 | a rebuilt index has the kind of its first flagging row, that row's column comes first among its members, and no member repeats |
| Indexes.ColumnsForBuffer | Program.cs:195-230 | the columns the second pass meets for an index, in buffer order, are the converted columns of that index's usable rows, in row order |
| Indexes.ResolveOrder | Program.cs:214-232 | a rebuilt index's members are the column of its first flagging row followed by the other converted columns of its usable rows, once each, in row order |
| Indexes.ResolveMemberOrder | Program.cs:214-232 | the members after the first are ordered by the first row of the index that names each of them |
| Indexes.RebuildLiteralFamilies | Program.cs:216-217 | a classified type's recorded literal is a rebuild literal exactly when the type is TINYTEXT, MEDIUMTEXT or TEXT in one of its two spellings |
| Indexes.ShortTextClassified | Program.cs:168-185 | each TINYTEXT, MEDIUMTEXT and TEXT spelling is converted |
| Indexes.ShortTextConverted | Program.cs:168-217 | a TINYTEXT, MEDIUMTEXT or TEXT spelling is converted with a rebuild literal |
| Indexes.TriggerHasShortText | Program.cs:214-217 | a flagging column comes from a `DESCRIBE` row whose type is one of the six short-text spellings |
| Indexes.ShortTextTriggers | Program.cs:214-217 | the column of a row with a short-text type flags every index it belongs to |
| Indexes.TriggersIff | Program.cs:134-217 | a column flags an index exactly when its `DESCRIBE` row has a TINYTEXT, MEDIUMTEXT or TEXT type; LONGTEXT, VARCHAR and CHAR never do |
| Indexes.ResolvedMembersNonEmpty | Program.cs:219-232 | every rebuilt index has at least one member |
| Render.AggregateIsJoin | Program.cs:241-242 | folding a non-empty list of lines, each followed by the separator, gives the seed, the joined lines and one trailing separator |
| Render.RemoveTrailingSeparator | Program.cs:241-243 | removing the last separator after the fold leaves the seed followed by the lines joined by the separator |
| Render.AddLine | Program.cs:262-273 | the ADD clause is the kind prefix, the index name and the backticked members joined by commas, with no trailing comma |
| Render.AppendPhase | Program.cs:247-251 | each bulk statement appends the ALTER TABLE line and the items joined by `,\n`, ending in `;` and a blank line |
| Render.ScriptText | Program.cs:235-279 | every script begins with the comment line and the table charset statement; `RenderScript` and `NothingToConvert` relate it to the code |
| Render.RenderScript | Program.cs:235-279 | the assembled script is the header, then DROP INDEX, then the two MODIFY phases, then ADD INDEX, each present only when there is something to drop, modify or add |
| Render.NothingToConvert | Program.cs:235-237 | with no columns and no indexes the script is the comment line and the table charset statement alone |
| Converter.PreflightOrder | Program.cs:63-124 | each error occurs exactly when every earlier check passed and its own check failed, and otherwise the parsed target is passed on |
| Converter.Preflight | Program.cs:97-124 | passing all checks hands on the parsed target, whose database exists, with a supported destination encoding, and every error is a `Fail` call; `PreflightOrder` gives the order of the checks |
| Converter.ConversionScript | Program.cs:129-280 | the only failure is the lookup of an unflagged index, and every script begins with the comment line and the table charset statement; `ConversionFails` and `NoShortTextNoIndexPhases` characterise it further |
| Converter.CreateConversionScriptForTable | Program.cs:129-280 | collecting columns, resolving indexes in two passes and rendering yields `ScriptText` of the collected columns and resolved indexes, or the second pass's error |
| Converter.Run | Program.cs:62-126 | `Main` ends with the first pre-flight error, or prints the script built for the parsed database and table |
| Converter.ConversionFails | Program.cs:195-232 | the table conversion throws exactly when a usable index row names a converted column of an index that no short-text column flagged |
| Converter.NoShortTextNoIndexPhases | Program.cs:214-277 | a table without TINYTEXT, MEDIUMTEXT or TEXT columns never gets a DROP INDEX or ADD INDEX phase |
| Scenarios.VarCharIndexThrows | Program.cs:154-228 | a `varchar(50)` column with a unique index makes the conversion throw for that index |
| Scenarios.LongTextIndexThrows | Program.cs:178-228 | a `longtext` column with a FULLTEXT index makes the conversion throw for that index |
| Scenarios.UnconvertedMemberDropped | Program.cs:226-232 | an index over an `int` and a `text` column is rebuilt over the `text` column alone |
| Scenarios.MembersReordered | Program.cs:214-232 | an index over a `varchar` then a `text` column is rebuilt with the `text` column first |

## Left out

- Command-line parsing (`Options.cs`, and `Main` up to line 60) is not part of this model. The target and the encodings are inputs.
- Opening the connection (lines 80-94) and the queries `SelectColumn`, `Select` and `SelectTable` (lines 29-54, 97, 110, 117, 130, 191) are server I/O. Their results are inputs: lists of strings and rows with nullable fields.
- `Fail`'s console output, its usage-text branch for a null or whitespace-only message, disposing the connection and `Environment.Exit` (lines 16-27) are I/O. A failure is an `Err` value, and `Errors.Message` holds its text.
- Printing the script (line 126) is I/O. `Converter.Run` returns the script.
- Regular-expression semantics are written out as predicates. `\d` is read as ASCII digits, and `$` is read as end of input, so the model ignores .NET allowing a final newline before `$`.
- `Options.cs` declares connection options, the target and the two encodings, which are used, and `GenerateScript`, `Verbose` and `Imitate` (lines 33-40), which `Program.cs` never reads: the program always prints the script (line 126). The unread options are not modelled. The `sourceCharset` parameter of `CreateConversionScriptForTable` is never read (line 129).
- When the target names only a database, `Main` still makes one table call, with a null table name (line 126). The model passes the empty string, which is what C# interpolation produces for null (`Converter.TableText`). The program then sends ``DESCRIBE `db`.`` `` (line 130), which the server rejects, and the resulting exception is unhandled, so that path never prints a script. `Converter.Run` takes the `DESCRIBE` and `SHOW INDEXES` rows as inputs and returns a script for whatever rows it is given; the server's rejection is not modelled. Converting every table of a database is not done by the code and is not modelled.
- Columns.CollectColumns: the throw of `Dictionary.Add` on a repeated column name (lines 157-184) is a precondition (`UniqueConvertedNames`) instead of an error result. `DESCRIBE` never reports a column twice, and `Columns.ColumnsOfDistinct` shows that the precondition keeps the dictionary's keys distinct.
- Converter.ConversionScript: it has no `UniqueConvertedNames` precondition and returns `Ok` on repeated converted column names, where the program throws at `Dictionary.Add` (lines 157-184). Its "the only failure is the lookup of an unflagged index" holds for the tables `CollectColumns` accepts, those with distinct converted names.
- Converter.ConversionFails: like `ConversionScript`, it does not model the `Dictionary.Add` throw on repeated converted column names, so its "throws exactly when" speaks of the second pass's lookup alone.
- Indexes.FirstPass: the cast of a null `Non_unique` to `long` (line 199) would throw. The model takes `Non_unique` as an integer that is always present.
- Indexes.SecondPass: the member `List` is shared by reference and updated in place (line 229). The model builds a new entry value for each update, with the same contents.
- `String.Remove` is modelled as a slice. It cannot fail here because each removed separator was just appended.
