# ng — schema reflection and code-generation core, in Dafny

`ng` reads the catalog of a Postgres schema into an intermediate representation. The
representation is a schema of tables, their columns, constraints and indexes. From it,
`ng` derives what the code templates need:

- naming conventions for every identifier (code, display, JSON and slug names);
- the Go type of every column;
- column and placeholder lists for generated CRUD statements;
- the DDL script of every table;
- doc comments for generated entities.

A small command-line parser reads the program's own arguments. This project models that
core and proves what each part promises.

| file | module | models |
|---|---|---|
| `wrappers.dfy` | `Wrappers` | `Option`, `Result`, `Outcome`, and `Collect`: the loop that appends one item per row and stops at the first fault |
| `text.dfy` | `Text` | the ASCII subset of Go's `strings` and `strconv` that the code uses |
| `models.dfy` | `Models` | the IR records of `src/models.go`, and the positions of the columns that pass a test |
| `mapping.dfy` | `Mapping` | `src/mapping.go`: `toProper`, `toJsonName`, `toSlug`, the type mapping, the CSV list builders |
| `makesql.dfy` | `MakeSql` | `src/make-sql.go`: `GetTableSQL` and its helpers |
| `scanner.dfy` | `Scanner` | `src/scanner.go`: folding the catalog rows into tables |
| `generator.dfy` | `Generator` | the empty-schema guard of `src/main.go`, and the primary-key guard of `createEntities` in `src/writer.go` |
| `argsparser.dfy` | `ArgsParser` | `src/argsParser/main.go`: declaring flags and values, and `Parse` |
| `templating.dfy` | `Templating` | the `TableComment`, `ColumnComment`, `PostgresFuncType` and `inc` template functions |

How the model is shaped:

- **Panics become values.** A Go panic, or a fatal `check(err)`, ends the run. In the
  model it becomes an `Err` or a `Fail` carrying the same message, with two exceptions:
  `Mapping.ToJsonName` returns `None` for its slice panic, without Go's message, and the
  nil dereferences listed under "Left out" are preconditions.
- **Queries become rows.** Each catalog query is replaced by the sequence of rows it
  returns, in arrival order.
- **State-changing code stays imperative.**
  - The scanner and the argument parser are classes whose methods update their fields.
  - The index scan back-fills columns in place, in an `array`, because in Go the table
    value shares its column storage with the caller.
  - The loops of the list builders, `toProper`, `getConstraintSQL`, `getCommentsSQL` and
    `GetTableSQL` are `while`/`for` loops. Each is proved against a reference function.
- **Map iteration order is left open.** Go ranges over a map in an unspecified order. The
  parser's walk over its declared names is modelled with `:|`. Its contract therefore says
  only that some order of the missing names was filed.

## Model

| member | source | states |
|---|---|---|
| `Models.PositionsExact` | src/mapping.go:129-141 | the filtered walk over `table.Columns` visits exactly the columns passing the test, each once, in stored order |
| `Models.KeyPositionsCount` | src/mapping.go:203-212 | the key and non-key columns together account for every column |
| `Mapping.MapPostgresTypeToGo` | src/mapping.go:11-45 | the mapping succeeds exactly when the lower-cased name is in the table; otherwise it fails with the `bit` advice or with `Unsupported Postgres data type: <name>` |
| `Mapping.MappingFaults` | src/mapping.go:31-44 | `bit` fails with its own message, and every other unlisted name with the generic one |
| `Mapping.MappingYieldsGoType` | src/mapping.go:11-45 | every mapped type is one of the Go types the emitters know |
| `Mapping.TemporalMapsToTime` | src/mapping.go:33-34 | every date and time kind maps to `*time.Time` |
| `Mapping.MappingIgnoresCase` | src/mapping.go:12 | a name and its lower-case form map alike |
| `Mapping.IsPostgresTypeCardinal` | src/mapping.go:47-53 | true exactly for the six auto-incrementing integer kinds |
| `Mapping.CardinalMapsToInteger` | src/mapping.go:13-18 | every cardinal type maps to `int16`, `int` or `int64` |
| `Mapping.NullableType` | src/mapping.go:57-60 | the result is a pointer exactly when the input was one or the column is nullable, and it changes nothing otherwise |
| `Mapping.NullableTypeIdempotent` | src/mapping.go:57-60 | wrapping twice is wrapping once |
| `Mapping.MapPostgresTypeToGoWithNullable` | src/mapping.go:55-61 | it fails exactly as the plain mapping does; otherwise it returns the plain type, or that type behind one `*`, and a pointer exactly when nullable or already a pointer |
| `Mapping.TemporalAlwaysPointer` | src/mapping.go:55-61 | temporal and interval columns are pointers whatever their nullability |
| `Mapping.ProperName` | src/mapping.go:79-108 | `toProper`'s result: empty for empty input, trimmed at both ends, and any spelling of `id` comes out as `Id` |
| `Mapping.ToJsonName` | src/mapping.go:63-69 | empty for an empty name; the panic exactly when the code name is empty; otherwise the code name with only its first character lower-cased |
| `Mapping.ToSlug` | src/mapping.go:71-77 | as long as the display name, lower-case, and without spaces |
| `Mapping.ToProper` | src/mapping.go:79-108 | the character loop returns `ProperName`: the capitalised words of the lower-cased value, with `id` spelled `Id` |
| `Mapping.CodeNameOfWords` | src/mapping.go:79-108 | for an identifier without spaces, the code name is its capitalised words concatenated, or `Id` |
| `Mapping.DisplayNameOfWords` | src/mapping.go:79-108 | for an identifier without spaces, the display name is its capitalised words joined by single spaces, with no leading blank |
| `Mapping.WordsEmptyIff` | src/mapping.go:86-101 | an identifier yields no words exactly when it is made of underscores only |
| `Mapping.SlugOfWords` | src/mapping.go:71-77 | the slug is the lower-case words joined by hyphens |
| `Mapping.JsonNameOfWords` | src/mapping.go:63-69 | the JSON name is the camel-case form: the first word as is, the rest capitalised (`id` for `id`) |
| `Mapping.JsonNameFaultsIff` | src/mapping.go:63-69 | for names without spaces, `toJsonName` panics exactly on a non-empty name made only of underscores |
| `Mapping.CsvJoinIsJoin` | src/mapping.go:116-125 | with no empty item, the text the builders accumulate is the comma join |
| `Mapping.CsvJoinEmptyIff` | src/mapping.go:119-121 | the text is empty exactly when every item is |
| `Mapping.CsvSplitRoundTrip` | src/mapping.go:116-125 | splitting the list on commas gives back the items, when none is empty or holds a comma |
| `Mapping.ToColumnNameListCsv` | src/mapping.go:116-125 | the comma list of every column name, in stored order |
| `Mapping.ToColumnNameListNoPrimaryKeysCsv` | src/mapping.go:129-141 | the comma list of the names of the non-key columns, in stored order |
| `Mapping.ToPrimaryKeyParametersCsv` | src/mapping.go:144-155 | the comma list of `name datatype` for each key column, in stored order |
| `Mapping.ToCodeNameListCsv` | src/mapping.go:159-168 | the comma list of each column's code name behind the prefix |
| `Mapping.ToParameterListNoPrimaryKeysCsv` | src/mapping.go:172-184 | as written: one `$i` per non-key column, `i` being its 0-based place among all columns |
| `Mapping.ToUpdateListNoPrimaryKeysCsv` | src/mapping.go:188-200 | as written: `name=$i` per non-key column, numbered the same way |
| `Mapping.ColumnIdxAfterPrimaryKeys` | src/mapping.go:203-212 | one more than the number of non-key columns, which is also the column count less the key count, plus one |
| `Mapping.LeadingKeyNumbering` | src/mapping.go:172-200 | with one key stored first, the non-key columns sit at 1, 2, … |
| `Mapping.PlaceholderZero` | src/mapping.go:181 | as written, a non-key first column gets the placeholder `$0` |
| `Mapping.NameThenKeyPlaceholders` | src/mapping.go:172-200 | a table with a text column before its key gets `$0` and `name=$0` |
| `Mapping.NumberedPlaceholdersRange` | src/mapping.go:170-171 | the corrected placeholders read back as `$1` … `$m` |
| `Mapping.NumberedAgreesWithLeadingKey` | src/mapping.go:172-200 | with one key stored first, the corrected lists equal the lists as written |
| `Mapping.ToParameterListNoPrimaryKeysCsvNumbered` | src/mapping.go:170-184 | corrected: the comma list of `$1` … `$m` for the `m` non-key columns |
| `Mapping.ToUpdateListNoPrimaryKeysCsvNumbered` | src/mapping.go:186-200 | corrected: `name=$k`, with `k` counting the non-key columns from 1 |
| `MakeSql.Capacity` | src/make-sql.go:51-54 | a `(n)` suffix exactly when a positive maximum length is recorded |
| `MakeSql.CapacityReadsBack` | src/make-sql.go:52-53 | the number between the parentheses parses back as the recorded length |
| `MakeSql.ColumnType` | src/make-sql.go:55-59 | `BIGSERIAL` for a cardinal key; otherwise the catalog type, extended exactly when there is a capacity |
| `MakeSql.NotNull` | src/make-sql.go:42-45 | ` NOT NULL` exactly for a column that is not nullable |
| `MakeSql.DefaultValue` | src/make-sql.go:46-58 | ` DEFAULT d` exactly for a column with a default that is not a `BIGSERIAL` |
| `MakeSql.ColumnSql` | src/make-sql.go:40-62 | `getColumnSQL`: the indented name, two spaces, type, nullability and default (shape in `MakeSql.ColumnSqlShape`) |
| `MakeSql.ColumnSqlShape` | src/make-sql.go:40-62 | a column clause opens with the indented name; a cardinal key is `BIGSERIAL` with no default |
| `MakeSql.ConstraintClause` | src/make-sql.go:69-76 | one constraint's clause: its head, then the `REFERENCES` lines for a foreign key (shape in `MakeSql.ConstraintClauseShape`) |
| `MakeSql.ConstraintClauseShape` | src/make-sql.go:69-76 | a constraint clause opens with its head, and continues exactly for a foreign key, with the `REFERENCES` line |
| `MakeSql.GetConstraintSql` | src/make-sql.go:64-78 | the concatenation of the constraint clauses, in stored order |
| `MakeSql.ConstraintSqlEmptyIff` | src/make-sql.go:64-78 | the constraint text is empty exactly when there are no constraints |
| `MakeSql.TableCommentSql` | src/make-sql.go:82-85 | a table comment statement exactly when the table has a comment |
| `MakeSql.TableCommentRoundTrip` | src/make-sql.go:83-84 | the quoted literal undoubles back to the table comment |
| `MakeSql.ColumnCommentRoundTrip` | src/make-sql.go:88-89 | the quoted literal undoubles back to the column comment |
| `MakeSql.ColumnCommentsExact` | src/make-sql.go:86-91 | one statement per commented column, in stored order, and none for the others |
| `MakeSql.CommentsSql` | src/make-sql.go:80-93 | the table's comment statement, then one per commented column in stored order (proved in `MakeSql.ColumnCommentsExact` and the round trips) |
| `MakeSql.GetCommentsSql` | src/make-sql.go:80-93 | the table's statement, then the column statements |
| `MakeSql.GetTableSql` | src/make-sql.go:8-38 | the loop builds `TableSql`: DROP, CREATE with comma-separated columns and constraints, ALTER OWNER, the comments |
| `MakeSql.TableSql` | src/make-sql.go:8-38 | the script of a table: nothing without columns, otherwise DROP, CREATE with the column and constraint clauses, ALTER OWNER and the comments (shape in `MakeSql.TableSqlShape`) |
| `MakeSql.TableSqlShape` | src/make-sql.go:8-38 | the script is empty exactly for a table without columns; otherwise it opens with the DROP/CREATE header |
| `Scanner.ColumnOf` | src/scanner.go:117-145 | the column record of one row, or the type mapping's fault (properties in `Scanner.ColumnOfFaults`) |
| `Scanner.ColumnOfFaults` | src/scanner.go:117-145 | a column row fails exactly when its type is refused, with that message; otherwise the column is well formed |
| `Scanner.ScanColumns` | src/scanner.go:107-147 | the loop returns the column records in row order, or the first fault |
| `Scanner.ColumnsInArrivalOrder` | src/scanner.go:107-147 | the scan succeeds exactly when every type maps, and then keeps one column per row in arrival order |
| `Scanner.ColumnsFirstFault` | src/scanner.go:117-145 | a failed scan reports the first refused type |
| `Scanner.ScannedColumnsFresh` | src/scanner.go:124-143 | scanned columns are not yet keys, and are filterable exactly for a view |
| `Scanner.ConstraintOfShape` | src/scanner.go:171-188 | a new constraint has at most one kind, references something exactly when it is a foreign key, and holds its first column |
| `Scanner.ConstraintOf` | src/scanner.go:171-188 | the constraint literal of a row, kinds read from its type (properties in `Scanner.ConstraintOfShape`) |
| `Scanner.NewConstraint` | src/scanner.go:171-188 | the constraint literal of a first row |
| `Scanner.ScanConstraints` | src/scanner.go:149-194 | the loop with its `columnAdded` map yields the rows folded by constraint name, in order of first appearance |
| `Scanner.ConstraintNamesDistinct` | src/scanner.go:168-191 | no constraint name is listed twice |
| `Scanner.ReferenceConstraintsFaithful` | src/scanner.go:149-194 | the constraints have distinct names and well-formed kinds, and every row's column is filed under its constraint |
| `Scanner.ResolveIndex` | src/scanner.go:214-231 | the index literal, holding the names of the columns at each position in `indkey` |
| `Scanner.KeyNamesIff` | src/scanner.go:224-231 | a name is among the index's columns exactly when some `indkey` token parses to that column's position |
| `Scanner.KeyNames` | src/scanner.go:224-231 | the names of the columns whose position some `indkey` token parses to, token by token (properties in `Scanner.KeyNamesIff`) |
| `Scanner.IndexRecord` | src/scanner.go:214-238 | the index of one row with its resolved columns; the panic when the table has columns and none resolves (properties in `Scanner.IndexRecordFacts`) |
| `Scanner.FillColumns` | src/scanner.go:232-237 | the back-fill loop of one index: the columns named first in the index get its key flag and become filterable; an index without names panics on the first column, so it passes only a table without columns, unchanged |
| `Scanner.ScanIndexes` | src/scanner.go:196-241 | the index records in row order, or the fault; on success the columns are back-filled by every index in turn, and on a table with columns every index names one |
| `Scanner.IndexRecordFacts` | src/scanner.go:210-238 | an index fails exactly when the table has columns and its key resolves none of them: the back-fill loop then reads `ColumnNames[0]` of an empty list |
| `Scanner.IndexesFaultIff` | src/scanner.go:196-241 | the index scan fails exactly when the table has columns and some index resolves none; otherwise it keeps every row's name, columns and flags |
| `Scanner.ColumnlessIndexesKept` | src/scanner.go:224-238 | a table without columns keeps every index, in order, with no column names, and nothing is back-filled |
| `Scanner.BackFilledLastWins` | src/scanner.go:232-237 | a column named first by an index is filterable, and the last such index decides its key flag; other columns are untouched |
| `Scanner.BackFilledKeepsFlags` | src/scanner.go:232-237 | back-filling keeps every column well formed |
| `Scanner.AddCodeImport` | src/scanner.go:98-105 | the import is appended unless already present |
| `Scanner.WithImport` | src/scanner.go:98-105 | keeps the imports as a prefix, holds the required one, and grows by at most one |
| `Scanner.WithImportFacts` | src/scanner.go:98-105 | the imports stay distinct, gain exactly the new one, keep their order, and adding it twice is adding it once |
| `Scanner.RecordTimeImport` | src/scanner.go:82-93 | `time` is imported exactly when a filterable column holds `*time.Time` |
| `Scanner.IndexTable` | src/scanner.go:81 | the table gets its resolved indexes and back-filled columns, or the index fault |
| `Scanner.TableOf` | src/scanner.go:61-94 | the table one scan yields, or its first fault (properties in `Scanner.TableOfFacts` and `Scanner.TableOfFaults`) |
| `Scanner.ScanTable` | src/scanner.go:61-94 | one table of the loop returns `TableOf`: the literal, then columns, constraints, indexes and import |
| `Scanner.TableOfFacts` | src/scanner.go:61-94 | a scanned table keeps its columns' names and positions, is owned by the schema, is updatable exactly when insertable, and imports `time` exactly when needed |
| `Scanner.TableOfFaults` | src/scanner.go:61-94 | for `Nameable` scans, a table fails exactly when a column type is refused, or when it has columns and an index resolves none of them (the `toJsonName` panic on other names is left out of the scan) |
| `Scanner.Scanner.constructor` | src/scanner.go:21-28 | `NewScanner`: an empty schema and the given names |
| `Scanner.Scanner.ScanPostgresDatabase` | src/scanner.go:30-48 | the schema starts from its literal and then holds every scanned table, or the run fails with the first fault |
| `Scanner.Scanner.ScanTablesAndViews` | src/scanner.go:50-96 | tables are appended in query order; on a fault, the tables before it stay appended |
| `Generator.TablesFound` | src/main.go:82-84 | the run goes on exactly when the schema has a table, and otherwise stops with `no tables were found.` |
| `Generator.CheckPrimaryKeys` | src/writer.go:114-129 | passes exactly when every table has a key column; otherwise it stops at the first table without one, naming it |
| `ArgsParser.DropDashes` | src/argsParser/main.go:326-332 | the result is what follows the text's leading run of dashes, and does not start with a dash |
| `ArgsParser.WithoutLeadingDashes` | src/argsParser/main.go:324-335 | `removeLeadingDashes`' result: trimmed, leading dashes stripped, trimmed again (see `ArgsParser.WithoutLeadingDashesNoSpace`) |
| `ArgsParser.RemoveLeadingDashes` | src/argsParser/main.go:324-335 | the loop returns the trimmed text without its leading dashes |
| `ArgsParser.WithoutLeadingDashesNoSpace` | src/argsParser/main.go:324-335 | for text without spaces, the result is the text less its leading dashes |
| `ArgsParser.Gathered` | src/argsParser/main.go:207-220 | one item per argument, numbered from 1 |
| `ArgsParser.Arguments.Gather` | src/argsParser/main.go:207-220 | the gathering loop returns `Gathered(args)` |
| `ArgsParser.PairedItems` | src/argsParser/main.go:222-236 | a flag followed by text becomes a key/value item, the text's item is emptied, and everything else stays |
| `ArgsParser.Arguments.Pair` | src/argsParser/main.go:222-236 | the in-place pass over the array yields `Paired` |
| `ArgsParser.KeptFrom` | src/argsParser/main.go:238-246 | the kept items are items of the list with a non-empty tag |
| `ArgsParser.Arguments.Sift` | src/argsParser/main.go:238-246 | keeps the non-empty items, and files `Cannot parse item` for each emptied flag or value |
| `ArgsParser.IssueOf` | src/argsParser/main.go:238-261 | the at most one issue an argument earns: `Cannot parse item`, an unknown flag or key, or stray text |
| `ArgsParser.SiftNotesAt` | src/argsParser/main.go:240-246 | `Cannot parse item` lands exactly at the position of an emptied flag or value, and never at 0 |
| `ArgsParser.CheckNotesAt` | src/argsParser/main.go:248-261 | position k+1 receives exactly the message item k earns: an unknown flag, an unknown key, or stray text |
| `ArgsParser.IssuesByPosition` | src/argsParser/main.go:238-261 | the argument checks file at each position exactly that argument's issue, and nothing at 0 |
| `ArgsParser.Arguments.CheckFound` | src/argsParser/main.go:248-261 | files one message per undeclared flag, undeclared key and stray text |
| `ArgsParser.Arguments.CheckItems` | src/argsParser/main.go:238-261 | sifting then checking files the position notes and keeps the non-empty items |
| `ArgsParser.FiledTwice` | src/argsParser/main.go:319-322 | filing two batches of issues is filing them together |
| `ArgsParser.GivenFlagsIff` | src/argsParser/main.go:264-271 | a flag counts as given exactly when some kept item is that flag |
| `ArgsParser.GivenValuesLastWins` | src/argsParser/main.go:276-283 | a key counts as given exactly when some kept item sets it, and the last such item supplies its value |
| `ArgsParser.ListsMissingFlagsStep` | src/argsParser/main.go:272-274 | visiting one more declared flag adds its `Missing flag` message exactly when it is required and not given |
| `ArgsParser.ListsMissingValuesStep` | src/argsParser/main.go:284-286 | the same for a declared key and its `Missing value` message |
| `ArgsParser.Arguments.VisitFlag` | src/argsParser/main.go:265-274 | marks one flag true if given, and files its missing message at 0 if required and absent |
| `ArgsParser.Arguments.VisitValue` | src/argsParser/main.go:277-286 | takes one key's last given value, and files its missing message at 0 if required and absent |
| `ArgsParser.Arguments.MarkFlags` | src/argsParser/main.go:264-275 | the declared flags become `Marked`, and each missing required flag is filed at 0, once |
| `ArgsParser.Arguments.TakeValues` | src/argsParser/main.go:276-287 | the declared values become `Taken`, and each missing required key is filed at 0, once |
| `ArgsParser.Arguments.MarkAndTake` | src/argsParser/main.go:264-287 | both walks together; the flag messages come before the value messages in slot 0 |
| `ArgsParser.SlotsChange` | src/argsParser/main.go:319-322 | the issues change exactly when something was filed |
| `ArgsParser.FiledSomething` | src/argsParser/main.go:319-322 | there are notes exactly when some slot received a message |
| `ArgsParser.ParsedSlots` | src/argsParser/main.go:238-287 | after the checks each argument's slot gained exactly its issue, and slot 0 gained exactly the missing messages |
| `ArgsParser.Arguments.New` | src/argsParser/main.go:65-93 | lower-cases and trims the dashed arguments in place, keeps all but the first, and gives every argument an empty issue slot |
| `ArgsParser.Arguments.AddFlag` | src/argsParser/main.go:96-103 | declares the trimmed lower-case name with its default, help and requirement, and widens the column |
| `ArgsParser.Arguments.AddValue` | src/argsParser/main.go:107-114 | the same for a key/value argument |
| `ArgsParser.Arguments.AddIssue` | src/argsParser/main.go:319-322 | appends the message to its slot and sets `HasIssues`; the declarations, help texts, column width, arguments and parsed mark stay as they were |
| `ArgsParser.Arguments.Parse` | src/argsParser/main.go:201-288 | runs once. Flags and values become `Marked`/`Taken` by the kept items. Each argument's slot gains exactly its issue, and slot 0 the missing names. `HasIssues` is set exactly when something was filed |
| `Templating.SentenceEnds` | src/templating.go:59-64 | a comment sentence ends with `.`, is the comment itself exactly when it already did, and a second pass changes nothing |
| `Templating.NameLinePrefix` | src/templating.go:51-55 | the first line names the code name, kind and database name |
| `Templating.TableComment` | src/templating.go:46-67 | the text appended piece by piece as the template helper does (its lines in `Templating.TableCommentIsBlock`) |
| `Templating.TableCommentIsBlock` | src/templating.go:46-67 | the text is the lines of `TableCommentLines`, each ended by a newline |
| `Templating.TableCommentLinesShape` | src/templating.go:46-67 | name line first, `It's READ ONLY.` second exactly for a table that is not updatable, and the comment as a full sentence last |
| `Templating.TableLinesFit` | src/templating.go:46-67 | with names and comment free of newlines, every line is a `//` comment |
| `Templating.TableCommentReadsBack` | src/templating.go:46-67 | splitting the text on newlines gives back its lines, and the text is a well-formed comment block |
| `Templating.ColumnHeadIsBlock` | src/templating.go:69-85 | the head is the name, key, filter, size and default lines, each ended by a newline |
| `Templating.ColumnCommentAsWritten` | src/templating.go:68-93 | the text as written, with the stray full stop (see Findings) |
| `Templating.ColumnComment` | src/templating.go:68-93 | the corrected text: the full stop ends the comment's own line |
| `Templating.ColumnCommentIsBlock` | src/templating.go:68-93 | the corrected text is the lines of `ColumnCommentLines` |
| `Templating.ColumnLinesFit` | src/templating.go:68-93 | with names, comment and default free of newlines, every line is a `//` comment |
| `Templating.ColumnCommentReadsBack` | src/templating.go:68-93 | the corrected text splits back into its lines and is a comment block |
| `Templating.ColumnCommentStrayStop` | src/templating.go:86-91 | as written, a comment without a final `.` leaves a bare `.` after the last newline, so the text is no comment block; otherwise both versions agree |
| `Templating.PostgresFuncType` | src/templating.go:114-124 | a type shorter than two characters is kept; otherwise the name starts without a lower-case letter and is seven characters longer exactly for a pointer type |
| `Templating.PostgresFuncTypeNullable` | src/templating.go:114-124 | a pointer type names the same helper as its base type, plus `Nullable` |
| `Templating.PostgresFuncTypeCapitalised` | src/templating.go:114-124 | for a type that is not a pointer, the name is the type with its first letter upper-cased |
| `Templating.Inc` | src/templating.go:125 | `inc` is `value + 1` in 64-bit two's complement, so it stays a Go `int` |
| `Templating.IncWraps` | src/templating.go:125 | `inc` is one-to-one on Go `int`s |

## Left out

- Connecting to Postgres, the query texts and logging are not modelled. Each query is
  replaced by the rows it returns. `check(err)` on a failed query or scan is not
  modelled.
- `toPlural` calls an external pluralisation library, so it is not modelled.
  `DisplayNamePlural` and `SlugNamePlural` stay empty.
- `Scanner.Scanner.ScanPostgresDatabase`, `Scanner.Scanner.ScanTablesAndViews` and
  `Scanner.ScanTable` require every catalog name they reach to be `Nameable`. The panic
  `toJsonName` raises on a name whose proper name is empty (made only of underscores, or
  of spaces and underscores, such as ` ` or `_ _`) is left out of the scan; it is
  modelled and proved on `Mapping.ToJsonName` itself.
- `Mapping.JsonNameFaultsIff` is stated for names without spaces. A name with spaces
  also panics when trimming leaves its proper name empty; `Mapping.ToJsonName` covers
  that case.
- `Templating.Inc` and `Templating.Wrap` take Go's `int` to be 64 bits wide, as it is on
  the 64-bit platforms the tool targets. On a 32-bit platform `inc` wraps at 2^31 - 1.
- `scanTablesAndViews` asks only for `BASE TABLE` rows, so its view test never fires.
  The model keeps the test (`IsView`) as written.
- The generator's file writing is not modelled: the template engine, `writeGoFile`,
  folders, and the entity, repository and API templates. Only the two guards are.
- The other template functions are not modelled: the date formats, `CurrentFolder`,
  `CommandLine`, `ConnectionStringEnvArg`, `SchemaName`, `ModuleName`, `RepoName`,
  `lower` and `upper`. They are clocks, the file system, configuration, or direct calls
  to Go's library. The list builders the templates call are modelled in `Mapping`.
- `ShowUsage` and `ShowIssues` are not modelled; they only print.
- `AppName` and `CommandLine` depend on `os.Args`, so they are not modelled.
- `Example` and `Indent` are display settings, so they are not modelled.
- `ArgsParser.Arguments.New`: Go panics on `args[1:]` when the list is empty. The model
  requires at least one argument instead of modelling that panic.
- `addIssue` is passed `a.Issues` as an explicit slice. It always receives the parser's
  own slice, so the model files into the `Issues` field directly.
- `ArgsParser.Arguments.Parse`, `ArgsParser.Arguments.MarkFlags` and
  `ArgsParser.Arguments.TakeValues` state the order of the slot-0 messages only up to
  the unspecified order of Go's map iteration: the flags, then the values.
- `ArgsParser.Arguments.AddFlag` models `math.Max` over float64 as an integer maximum.
  The two agree for any realistic name length.
- The case mapping and white-space tests cover ASCII only. Go's Unicode tables are not
  modelled.
- Go's nil pointer dereferences (`*c.MaxLen`, `*c.ColumnDefault`, `*c.ForeignTable`) are
  preconditions (`Dereferenceable`), not faults. The scanner's own records meet them,
  as `Scanner.ScannedColumnsFresh` and `Scanner.TableOfFacts` show.
- `Templating.TableCommentReadsBack` and `Templating.ColumnCommentReadsBack` assume names
  and comments free of newlines. With a newline inside a comment the output still has the
  same text, but it does not split back into the same lines.
- `Mapping.ToParameterListNoPrimaryKeysCsv` and `Mapping.ToUpdateListNoPrimaryKeysCsv`
  are modelled as written. The corrected lists are separate members; see Findings.

## Findings

| source | as written | input that shows it | evidently intended | confidence | as-written member | corrected member |
|---|---|---|---|---|---|---|
| src/templating.go:86-91 | the missing full stop is appended after the comment's newline | a column with comment `Holds the email` gives a text ending `// Holds the email\n.` | the stop ends the comment's own line, as `TableComment` does at lines 59-64 | high; not executed | `Templating.ColumnCommentAsWritten`, shown by `Templating.ColumnCommentStrayStop` | `Templating.ColumnComment`, proved by `Templating.ColumnCommentReadsBack` |
| src/mapping.go:172-200 | a placeholder is numbered by the column's 0-based place among all columns | columns `name` (not a key), then `id` (the key): the lists are `$0` and `name=$0` | the non-key columns numbered `$1` … `$m`, as they are when the key is stored first | medium; not executed | `Mapping.ToParameterListNoPrimaryKeysCsv`, `Mapping.ToUpdateListNoPrimaryKeysCsv`, shown by `Mapping.NameThenKeyPlaceholders` | `Mapping.ToParameterListNoPrimaryKeysCsvNumbered`, `Mapping.ToUpdateListNoPrimaryKeysCsvNumbered`, proved by `Mapping.NumberedPlaceholdersRange` and `Mapping.NumberedAgreesWithLeadingKey` |
